/**
 * The part of .NET reflection the builder consults about types: each type's
 * base type, the interfaces it implements and the location of the assembly
 * that defines it (Type.BaseType, Type.GetInterfaces(), Type.Assembly.Location).
 */
module TypeModel {
  import opened Wrappers

  /** A loaded type. */
  type TypeId = nat

  datatype TypeInfo = TypeInfo(baseType: Option<TypeId>, interfaces: seq<TypeId>, location: string)

  /** The types the running process knows about. */
  type TypeTable = map<TypeId, TypeInfo>

  /**
   * Every base type and interface is itself in the table, and the ids number
   * the types so that a base type always has a smaller id than the types that
   * derive from it. Such a numbering exists exactly because inheritance is
   * acyclic, so the id serves as the depth that bounds a climb up the bases.
   */
  ghost predicate ValidTable(types: TypeTable) {
    forall id | id in types ::
      && (types[id].baseType.Some? ==>
            types[id].baseType.value in types && types[id].baseType.value < id)
      && (forall k | 0 <= k < |types[id].interfaces| :: types[id].interfaces[k] in types)
  }

  /** `b`, then its base type, then that type's base, up to the type that has no base. */
  function BaseChain(types: TypeTable, b: TypeId): (chain: seq<TypeId>)
    requires ValidTable(types) && b in types
    ensures forall k | 0 <= k < |chain| :: chain[k] in types
    decreases b
  {
    [b] + match types[b].baseType
          case None => []
          case Some(c) => BaseChain(types, c)
  }

  /**
   * What GetParentTypes yields: nothing for a null type or for a type without
   * a base; otherwise the type's interfaces, then its base chain.
   */
  function ParentTypes(types: TypeTable, ty: Option<TypeId>): (parents: seq<TypeId>)
    requires ValidTable(types) && (ty.Some? ==> ty.value in types)
    ensures forall k | 0 <= k < |parents| :: parents[k] in types
  {
    if ty.None? || types[ty.value].baseType.None? then []
    else types[ty.value].interfaces + BaseChain(types, types[ty.value].baseType.value)
  }

  /**
   * An independent description of a base chain from `b`: it starts at `b`,
   * each element is followed by its own base type, and it ends at a type
   * without a base.
   */
  ghost predicate IsBaseChain(types: TypeTable, b: TypeId, chain: seq<TypeId>) {
    && chain != [] && chain[0] == b
    && (forall k | 0 <= k < |chain| :: chain[k] in types)
    && (forall k | 0 <= k < |chain| - 1 :: types[chain[k]].baseType == Some(chain[k + 1]))
    && types[chain[|chain| - 1]].baseType.None?
  }

  lemma FirstLink(types: TypeTable, b: TypeId, chain: seq<TypeId>)
    requires IsBaseChain(types, b, chain)
    ensures |chain| > 1 ==> types[b].baseType == Some(chain[1])
  {
  }

  /** BaseChain is the one and only chain that climbs from `b` to a type without a base. */
  lemma {:induction false} BaseChainIsTheChain(types: TypeTable, b: TypeId, chain: seq<TypeId>)
    requires ValidTable(types) && b in types
    ensures IsBaseChain(types, b, BaseChain(types, b))
    ensures IsBaseChain(types, b, chain) <==> chain == BaseChain(types, b)
    decreases b
  {
    var bc := BaseChain(types, b);
    match types[b].baseType
    case None =>
      assert bc == [b];
      if IsBaseChain(types, b, chain) {
        FirstLink(types, b, chain);
        assert chain == [b];
      }
    case Some(c) =>
      BaseChainIsTheChain(types, c, if |chain| > 0 then chain[1..] else []);
      assert bc == [b] + BaseChain(types, c);
      if IsBaseChain(types, b, chain) {
        assert |chain| > 1;
        assert types[chain[0]].baseType == Some(chain[1]);
        assert IsBaseChain(types, c, chain[1..]) by {
          forall k | 0 <= k < |chain[1..]| - 1
            ensures types[chain[1..][k]].baseType == Some(chain[1..][k + 1])
          {
            assert types[chain[k + 1]].baseType == Some(chain[k + 2]);
          }
        }
        assert chain == [chain[0]] + chain[1..];
      }
      var tail := BaseChain(types, c);
      forall k | 0 <= k < |bc| - 1
        ensures types[bc[k]].baseType == Some(bc[k + 1])
      {
        if k > 0 {
          assert bc[k] == tail[k - 1] && bc[k + 1] == tail[k];
        }
      }
  }

  /** The ids strictly decrease along a base chain, so no type appears in it twice. */
  lemma {:induction false} BaseChainDecreasing(types: TypeTable, b: TypeId)
    requires ValidTable(types) && b in types
    ensures forall i, j | 0 <= i < j < |BaseChain(types, b)| ::
              BaseChain(types, b)[j] < BaseChain(types, b)[i]
    decreases b
  {
    var bc := BaseChain(types, b);
    match types[b].baseType
    case None =>
    case Some(c) =>
      BaseChainDecreasing(types, c);
      var tail := BaseChain(types, c);
      assert bc == [b] + tail;
      forall i, j | 0 <= i < j < |bc| ensures bc[j] < bc[i] {
        assert bc[j] == tail[j - 1];
        if i > 0 {
          assert bc[i] == tail[i - 1];
        } else {
          assert tail[0] == c;
          assert tail[j - 1] <= c by {
            if j - 1 > 0 { assert tail[j - 1] < tail[0]; }
          }
        }
      }
  }
}
