/** Authoring types of the provisioning plan (src/contracts/sdk.ts). */
module Contracts {
  datatype Field = Field(name: string, dataType: string)

  datatype TargetKind = System | Custom

  datatype Relationship = Relationship(sourceField: string, kind: TargetKind, targetSchema: string)

  datatype Definition = Definition(
    name: string,
    uniqueKeys: seq<string>,
    fields: seq<Field>,
    relationships: seq<Relationship>)

  function Names(defs: seq<Definition>): (names: seq<string>)
    ensures |names| == |defs|
    ensures forall i :: 0 <= i < |defs| ==> names[i] == defs[i].name
  {
    seq(|defs|, i requires 0 <= i < |defs| => defs[i].name)
  }

  ghost predicate DistinctNames(defs: seq<Definition>) {
    forall i, j :: 0 <= i < j < |defs| ==> defs[i].name != defs[j].name
  }
}
