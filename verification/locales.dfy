/**
 The Localizable collaborator: the closed table of supported languages and
 their two folder-naming forms, a legacy verbose name (`English`) and a newer
 short code (`en`). The table's contents are not part of this model, so its
 operations are carried as total functions over an abstract language type `L`.
 */
module Locales {

  datatype Localizable<!L> = Localizable(
    isLegacyName: string -> bool,
    isNewName: string -> bool,
    createFromLegacyName: string -> L,
    createFromNewName: string -> L,
    legacyName: L -> string,
    newName: L -> string)

  /**
   What a consistent table guarantees: each language's legacy and new names
   are recognised and map back to it, and no name is recognised in both forms.
   */
  ghost predicate ValidTable<L(!new)>(loc: Localizable<L>) {
    && (forall l: L :: loc.isLegacyName(loc.legacyName(l)) && loc.createFromLegacyName(loc.legacyName(l)) == l)
    && (forall l: L :: loc.isNewName(loc.newName(l)) && loc.createFromNewName(loc.newName(l)) == l)
    && (forall s: string :: !(loc.isLegacyName(s) && loc.isNewName(s)))
  }
}
