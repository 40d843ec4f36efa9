/**
 How LanguageDictionary finds its resources in an application bundle: the
 localisation folders of `<app>.app` and the language name of a folder.
 The file system is given as a listing; nothing here touches a disk.
 */
module Bundle {
  import opened Results
  import opened Strings

  /** The fixed name of the resource file inside a localisation folder. */
  const LocalizableFile: string := "Localizable.strings"

  /**
   One entry of the bundle directory: its name, and whether
   `<entry>/Localizable.strings` exists (false for a plain file).
   */
  datatype Entry = Entry(name: string, hasLocalizable: bool)

  /** The regex `.lproj` matches at index `i`: any non-terminator, then the letters `lproj`. */
  predicate LprojAt(s: string, i: int) {
    0 <= i && i + 6 <= |s| && !IsLineTerminator(s[i]) && s[i + 1..i + 6] == "lproj"
  }

  /** Index `i` is the leftmost match of `.lproj` in `s`. */
  predicate FirstLprojAt(s: string, i: int) {
    LprojAt(s, i) && forall j :: 0 <= j < i ==> !LprojAt(s, j)
  }

  lemma LprojShift(s: string)
    requires s != []
    ensures forall j :: 0 <= j ==> (LprojAt(s[1..], j) <==> LprojAt(s, j + 1))
  {
    forall j | 0 <= j
      ensures LprojAt(s[1..], j) <==> LprojAt(s, j + 1)
    {
      if 0 <= j && j + 6 <= |s[1..]| {
        assert s[1..][j] == s[j + 1];
        assert s[1..][j + 1..j + 6] == s[j + 2..j + 7];
      }
    }
  }

  /** A leftmost match after index 0 is a leftmost match of the tail, one place earlier. */
  lemma FirstLprojStep(s: string, i: int)
    requires s != [] && !LprojAt(s, 0) && FirstLprojAt(s, i)
    ensures i >= 1 && FirstLprojAt(s[1..], i - 1)
    ensures [s[0]] + (s[1..][..i - 1] + s[1..][i + 5..]) == s[..i] + s[i + 6..]
  {
    LprojShift(s);
    forall j | 0 <= j < i - 1
      ensures !LprojAt(s[1..], j)
    {
      assert !LprojAt(s, j + 1);
    }
    assert s[..i] == [s[0]] + s[1..][..i - 1];
  }

  /**
   String.replaceFirst(".lproj", ""): removes the leftmost match of the regex
   and nothing else; without a match the string is returned unchanged.
   */
  function ReplaceFirstLproj(s: string): (r: string)
    ensures (forall i :: 0 <= i < |s| ==> !LprojAt(s, i)) ==> r == s
    ensures forall i :: FirstLprojAt(s, i) ==> r == s[..i] + s[i + 6..]
    decreases |s|
  {
    if s == [] then []
    else if LprojAt(s, 0) then s[6..]
    else
      var rest := ReplaceFirstLproj(s[1..]);
      LprojShift(s);
      assert forall i :: FirstLprojAt(s, i) ==> [s[0]] + rest == s[..i] + s[i + 6..] by {
        forall i | FirstLprojAt(s, i)
          ensures [s[0]] + rest == s[..i] + s[i + 6..]
        {
          FirstLprojStep(s, i);
        }
      }
      [s[0]] + rest
  }

  /** extractLanguageName, given the name of the resource file's parent folder. */
  function ExtractLanguageName(parentName: string): string {
    ReplaceFirstLproj(parentName)
  }

  /**
   For a folder named `<name>.lproj`, where `<name>` holds no match of the
   regex itself, the language name is `<name>`.
   */
  lemma ExtractStripsSuffix(name: string)
    requires forall i :: 0 <= i < |name| ==> !LprojAt(name, i)
    ensures ExtractLanguageName(name + ".lproj") == name
  {
    var s := name + ".lproj";
    var n := |name|;
    assert s[n] == '.';
    assert s[n + 1..n + 6] == "lproj";
    assert LprojAt(s, n);
    forall j | 0 <= j < n
      ensures !LprojAt(s, j)
    {
      if j + 6 <= n {
        assert s[j + 1..j + 6] == name[j + 1..j + 6];
        assert s[j] == name[j];
        assert !LprojAt(name, j);
      } else {
        assert s[j + 1..j + 6][n - j - 1] == '.';
        assert "lproj"[n - j - 1] != '.';
      }
    }
    assert FirstLprojAt(s, n);
    assert s[..n] == name && s[n + 6..] == [];
  }

  /**
   The regex's `.` is any character, so a folder named with another separator
   is cut the same way, and a folder that merely ends in `lproj` loses that
   ending together with the character before it.
   */
  lemma ExtractDotIsWildcard()
    ensures ExtractLanguageName("en.lproj") == "en"
    ensures ExtractLanguageName("en-lproj") == "en"
    ensures ExtractLanguageName("lproj") == "lproj"
  {
    var a := "en.lproj";
    assert LprojAt(a, 2) && !LprojAt(a, 0) && !LprojAt(a, 1);
    assert FirstLprojAt(a, 2);
    assert a[..2] + a[8..] == "en";
    var b := "en-lproj";
    assert LprojAt(b, 2) && !LprojAt(b, 0) && !LprojAt(b, 1);
    assert FirstLprojAt(b, 2);
    assert b[..2] + b[8..] == "en";
    var c := "lproj";
    assert forall i :: 0 <= i < |c| ==> !LprojAt(c, i);
  }

  /** The listFiles filter: every entry whose name ends with `lproj`, in listing order. */
  function LocaleFolders(listing: seq<Entry>): (folders: seq<Entry>)
    ensures forall e :: e in folders <==> e in listing && EndsWith(e.name, "lproj")
    ensures (forall i :: 0 <= i < |listing| ==> EndsWith(listing[i].name, "lproj")) ==> folders == listing
    ensures |folders| <= |listing|
    decreases |listing|
  {
    if listing == [] then []
    else if EndsWith(listing[0].name, "lproj") then [listing[0]] + LocaleFolders(listing[1..])
    else LocaleFolders(listing[1..])
  }

  /** Filtering keeps listing order: the folders of a split listing are those of its parts, in order. */
  lemma {:induction false} LocaleFoldersAppend(a: seq<Entry>, b: seq<Entry>)
    ensures LocaleFolders(a + b) == LocaleFolders(a) + LocaleFolders(b)
    decreases |a|
  {
    if a == [] {
      assert a + b == b;
    } else {
      assert (a + b)[0] == a[0];
      assert (a + b)[1..] == a[1..] + b;
      LocaleFoldersAppend(a[1..], b);
    }
  }

  /**
   The path of the resource file expected in folder `dir` of bundle `aut`.
   `aut` is the bundle's normalised path other than the root `/`, so that
   joining with `/` matches `new File(folder, name)`.
   */
  function ResourcePath(aut: string, dir: string): string {
    aut + "/" + dir + "/" + LocalizableFile
  }

  /** Folder `i` is the first in `folders` whose resource file is missing. */
  predicate FirstMissing(folders: seq<Entry>, i: int) {
    0 <= i < |folders| && !folders[i].hasLocalizable
    && forall j :: 0 <= j < i ==> folders[j].hasLocalizable
  }

  /**
   getL10NFiles: the resource file of every localisation folder, in listing
   order; the first folder without one aborts the whole enumeration, naming
   the missing path.
   */
  method GetL10NFiles(aut: string, listing: seq<Entry>) returns (r: Result<seq<string>>)
    ensures r.Ok? <==> forall e :: e in LocaleFolders(listing) ==> e.hasLocalizable
    ensures r.Ok? ==> |r.value| == |LocaleFolders(listing)|
    ensures r.Ok? ==> forall i :: 0 <= i < |r.value| ==>
      r.value[i] == ResourcePath(aut, LocaleFolders(listing)[i].name)
    ensures r.Err? ==> exists i ::
      FirstMissing(LocaleFolders(listing), i) &&
      r.error == MissingL10NFile(ResourcePath(aut, LocaleFolders(listing)[i].name))
  {
    var folders := LocaleFolders(listing);
    var res: seq<string> := [];
    var i := 0;
    while i < |folders|
      invariant 0 <= i <= |folders|
      invariant |res| == i
      invariant forall j :: 0 <= j < i ==> folders[j].hasLocalizable
      invariant forall j :: 0 <= j < i ==> res[j] == ResourcePath(aut, folders[j].name)
    {
      var resource := ResourcePath(aut, folders[i].name);
      if !folders[i].hasLocalizable {
        assert FirstMissing(folders, i);
        return Err(MissingL10NFile(resource));
      }
      res := res + [resource];
      i := i + 1;
    }
    return Ok(res);
  }
}
