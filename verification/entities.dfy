/** Entity extraction: select the "model" types of a module by name and list
    the normalised descriptor of each of their fields
    (EntityAnalysisHelper.GetModelTypesAndMembers). */
module Entities {
  import opened Wrappers
  import opened Text
  import opened Dictionaries
  import opened Metadata
  import opened TypeNames

  const ModelMarker: string := "Models"
  const RepositoryInterfacesMarker: string := "Models.Repositories.Interfaces"
  const RepositoryImplementationsMarker: string := "Models.Repositories.Implementations"
  const ContextMarker: string := "Context"

  /** The name filter: a type is included exactly when its full name has the
      model marker as a substring and none of the three excluded markers as a
      substring. */
  predicate IsModelType(fullName: string): (b: bool)
    ensures b <==>
      && Occurs(fullName, ModelMarker)
      && !Occurs(fullName, RepositoryInterfacesMarker)
      && !Occurs(fullName, RepositoryImplementationsMarker)
      && !Occurs(fullName, ContextMarker)
  {
    ContainsIffOccurs(fullName, ModelMarker);
    ContainsIffOccurs(fullName, RepositoryInterfacesMarker);
    ContainsIffOccurs(fullName, RepositoryImplementationsMarker);
    ContainsIffOccurs(fullName, ContextMarker);
    && Contains(fullName, ModelMarker)
    && !Contains(fullName, RepositoryInterfacesMarker)
    && !Contains(fullName, RepositoryImplementationsMarker)
    && !Contains(fullName, ContextMarker)
  }

  /** The key an included type is stored under: its simple class name. */
  function EntityKey(t: TypeDef): string
  {
    GetClassName(t.fullName)
  }

  /** The descriptor of one field: normalised type name, a space, normalised
      field name. */
  function Descriptor(f: FieldDef): string
  {
    ExtractGenericType(f.fieldTypeName) + " " + ExtractGenericType(f.name)
  }

  /** One descriptor per field, in field order. */
  function Descriptors(fields: seq<FieldDef>): seq<string>
    decreases |fields|
  {
    if |fields| == 0 then [] else [Descriptor(fields[0])] + Descriptors(fields[1..])
  }

  /** The descriptor list follows the field list position by position. */
  lemma {:induction false} DescriptorsFollowFields(fields: seq<FieldDef>)
    ensures |Descriptors(fields)| == |fields|
    ensures forall j :: 0 <= j < |fields| ==> Descriptors(fields)[j] == Descriptor(fields[j])
    decreases |fields|
  {
    if |fields| > 0 {
      DescriptorsFollowFields(fields[1..]);
    }
  }

  /** `types[i]` passes the name filter `accept`. */
  ghost predicate IncludedAt(types: seq<TypeDef>, accept: string -> bool, i: int)
  {
    0 <= i < |types| && accept(types[i].fullName)
  }

  /** `types[i]` passes the filter and no later included type shares its key,
      so its descriptors are the ones left in the map. */
  ghost predicate LastWithItsKey(types: seq<TypeDef>, accept: string -> bool, i: int)
  {
    IncludedAt(types, accept, i)
    && forall j :: i < j < |types| && IncludedAt(types, accept, j) ==> EntityKey(types[j]) != EntityKey(types[i])
  }

  /** The extraction loop with the name filter as a parameter: the types are
      processed in order and every included type is written under its simple
      class name, so a later type with the same simple name overwrites an
      earlier one. */
  function SelectEntities(types: seq<TypeDef>, accept: string -> bool): (r: Dict<string, seq<string>>)
    ensures DistinctKeys(r)
    decreases |types|
  {
    if |types| == 0 then []
    else
      var prev := SelectEntities(types[..|types| - 1], accept);
      var t := types[|types| - 1];
      if accept(t.fullName) then
        PutKeepsKeysDistinct(prev, EntityKey(t), Descriptors(t.fields));
        Put(prev, EntityKey(t), Descriptors(t.fields))
      else
        prev
  }

  /** GetModelTypesAndMembers: the extraction with the fixed model filter. */
  function GetModelTypesAndMembers(types: seq<TypeDef>): (r: Dict<string, seq<string>>)
    ensures DistinctKeys(r)
    ensures Keys(r) == Dedup(IncludedKeys(types, IsModelType))
  {
    EntityOrderIsFirstOccurrence(types, IsModelType);
    SelectEntities(types, IsModelType)
  }

  /** Dropping the last type leaves the other types' inclusion as it was. */
  lemma PrefixAgrees(types: seq<TypeDef>, accept: string -> bool, i: int)
    requires 0 <= i < |types| - 1
    ensures types[..|types| - 1][i] == types[i]
    ensures IncludedAt(types[..|types| - 1], accept, i) <==> IncludedAt(types, accept, i)
  {
  }

  /** The descriptors stored under a simple name are those of the last
      included type with that simple name. */
  lemma {:induction false} LastIncludedTypeWins(types: seq<TypeDef>, accept: string -> bool, i: int)
    requires LastWithItsKey(types, accept, i)
    ensures Get(SelectEntities(types, accept), EntityKey(types[i])) == Some(Descriptors(types[i].fields))
    decreases |types|
  {
    var n := |types| - 1;
    var prefix := types[..n];
    if i == n {
      var t := types[n];
      PutThenGet(SelectEntities(prefix, accept), EntityKey(t), Descriptors(t.fields), EntityKey(t));
    } else {
      PrefixAgrees(types, accept, i);
      assert LastWithItsKey(prefix, accept, i) by {
        forall j | i < j < |prefix| && IncludedAt(prefix, accept, j)
          ensures EntityKey(prefix[j]) != EntityKey(prefix[i])
        {
          PrefixAgrees(types, accept, j);
        }
      }
      LastIncludedTypeWins(prefix, accept, i);
      var t := types[n];
      if accept(t.fullName) {
        assert IncludedAt(types, accept, n);
        PutThenGet(SelectEntities(prefix, accept), EntityKey(t), Descriptors(t.fields), EntityKey(types[i]));
      }
    }
  }

  /** The simple names of the included types, in type-list order, with
      repetitions. */
  function IncludedKeys(types: seq<TypeDef>, accept: string -> bool): seq<string>
    decreases |types|
  {
    if |types| == 0 then []
    else
      var t := types[|types| - 1];
      IncludedKeys(types[..|types| - 1], accept) + if accept(t.fullName) then [EntityKey(t)] else []
  }

  /** One step of the extraction: the last type is written over the result
      for the other types exactly when it passes the filter. */
  lemma SelectEntitiesStep(types: seq<TypeDef>, accept: string -> bool)
    requires |types| > 0
    ensures var t := types[|types| - 1];
            var prev := SelectEntities(types[..|types| - 1], accept);
            SelectEntities(types, accept) == if accept(t.fullName) then Put(prev, EntityKey(t), Descriptors(t.fields)) else prev
  {
  }

  /** One step of the key list: the last type contributes its key exactly
      when it passes the filter. */
  lemma IncludedKeysStep(types: seq<TypeDef>, accept: string -> bool)
    requires |types| > 0
    ensures var t := types[|types| - 1];
            var prev := IncludedKeys(types[..|types| - 1], accept);
            IncludedKeys(types, accept) == if accept(t.fullName) then prev + [EntityKey(t)] else prev
  {
  }

  /** Entities are enumerated in the order their simple names first occur
      among the included types. */
  lemma {:induction false} EntityOrderIsFirstOccurrence(types: seq<TypeDef>, accept: string -> bool)
    ensures Keys(SelectEntities(types, accept)) == Dedup(IncludedKeys(types, accept))
    decreases |types|
  {
    if |types| > 0 {
      var n := |types| - 1;
      var prefix := types[..n];
      var t := types[n];
      EntityOrderIsFirstOccurrence(prefix, accept);
      SelectEntitiesStep(types, accept);
      IncludedKeysStep(types, accept);
      if accept(t.fullName) {
        PutKeepsFirstOccurrenceOrder(SelectEntities(prefix, accept), IncludedKeys(prefix, accept), EntityKey(t), Descriptors(t.fields));
      }
    }
  }

  /** A simple name occurs among the included types' keys exactly when some
      included type has it. */
  lemma {:induction false} IncludedKeysMembership(types: seq<TypeDef>, accept: string -> bool, k: string)
    ensures k in IncludedKeys(types, accept) <==> exists i :: IncludedAt(types, accept, i) && EntityKey(types[i]) == k
    decreases |types|
  {
    if |types| > 0 {
      var n := |types| - 1;
      var prefix := types[..n];
      IncludedKeysMembership(prefix, accept, k);
      if k in IncludedKeys(prefix, accept) {
        var i :| IncludedAt(prefix, accept, i) && EntityKey(prefix[i]) == k;
        PrefixAgrees(types, accept, i);
      } else if !(k in IncludedKeys(types, accept)) {
        forall i | IncludedAt(types, accept, i)
          ensures EntityKey(types[i]) != k
        {
          if i < n {
            PrefixAgrees(types, accept, i);
          }
        }
      }
    }
  }

  /** The extracted map has exactly one entry per simple name of an included
      type. */
  lemma {:induction false} EntityKeysAreIncludedNames(types: seq<TypeDef>, accept: string -> bool, k: string)
    ensures k in Keys(SelectEntities(types, accept)) <==> exists i :: IncludedAt(types, accept, i) && EntityKey(types[i]) == k
  {
    EntityOrderIsFirstOccurrence(types, accept);
    DedupSpec(IncludedKeys(types, accept));
    IncludedKeysMembership(types, accept, k);
  }

  /** GetModelTypesAndMembers stores, under each simple name, the
      descriptors of the last model type with that simple name, and has no
      other keys; a module without model types gives the empty map. */
  lemma ModelEntities(types: seq<TypeDef>, k: string, i: int)
    ensures LastWithItsKey(types, IsModelType, i) ==>
      Get(GetModelTypesAndMembers(types), EntityKey(types[i])) == Some(Descriptors(types[i].fields))
    ensures k in Keys(GetModelTypesAndMembers(types)) <==>
      exists i' :: 0 <= i' < |types| && IsModelType(types[i'].fullName) && EntityKey(types[i']) == k
  {
    if LastWithItsKey(types, IsModelType, i) {
      LastIncludedTypeWins(types, IsModelType, i);
    }
    EntityKeysAreIncludedNames(types, IsModelType, k);
  }
}
