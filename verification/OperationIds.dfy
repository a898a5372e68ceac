/**
 Unique operation ids: every operation of the document keeps its own or generated name, or gets
 the first numbered variant that is still free.
 */
module OperationIds {
  import opened Wrappers
  import opened Decimals

  /** `generated` is the name built from method and path. */
  class Operation {
    var operationId: Option<string>
    const generated: string

    constructor (operationId: Option<string>, generated: string)
      ensures this.operationId == operationId && this.generated == generated
    {
      this.operationId := operationId;
      this.generated := generated;
    }

    function Base(): string
      reads this
    {
      if operationId.Some? then operationId.value else generated
    }
  }

  function Numbered(base: string, index: nat): string {
    base + "_" + Decimal(index)
  }

  /** The name tried at a given turn: the base itself, then the numbers from 2 on. */
  function Candidate(base: string, turn: nat): string {
    if turn == 0 then base else Numbered(base, turn + 1)
  }

  lemma CandidateInjective(base: string, m: nat, n: nat)
    requires Candidate(base, m) == Candidate(base, n)
    ensures m == n
  {
    if m > 0 && n > 0 {
      assert Candidate(base, m)[|base| + 1..] == Decimal(m + 1);
      assert Candidate(base, n)[|base| + 1..] == Decimal(n + 1);
      DecimalInjective(m + 1, n + 1);
    }
  }

  /** The names tried in the first turns. */
  function Tried(base: string, turns: nat): set<string> {
    if turns == 0 then {} else Tried(base, turns - 1) + {Candidate(base, turns - 1)}
  }

  lemma {:induction false} TriedExactly(base: string, turn: nat, turns: nat)
    ensures Candidate(base, turn) in Tried(base, turns) <==> turn < turns
  {
    if turns > 0 {
      TriedExactly(base, turn, turns - 1);
      if Candidate(base, turn) == Candidate(base, turns - 1) {
        CandidateInjective(base, turn, turns - 1);
      }
    }
  }

  lemma {:induction false} TriedSize(base: string, turns: nat)
    ensures |Tried(base, turns)| == turns
  {
    if turns > 0 {
      TriedSize(base, turns - 1);
      TriedExactly(base, turns - 1, turns - 1);
    }
  }

  lemma Pigeonhole(base: string, turns: nat, used: set<string>)
    requires Tried(base, turns) <= used
    ensures turns <= |used|
  {
    TriedSize(base, turns);
    assert used == Tried(base, turns) + (used - Tried(base, turns));
  }

  /** The first name not in use from a turn on; at most as many names are in use as there are used ids. */
  function Search(base: string, used: set<string>, turn: nat): (id: string)
    requires Tried(base, turn) <= used
    ensures id !in used
    decreases |used| - turn
  {
    if Candidate(base, turn) !in used then Candidate(base, turn)
    else
      Pigeonhole(base, turn + 1, used);
      Search(base, used, turn + 1)
  }

  function FirstFree(base: string, used: set<string>): string {
    Search(base, used, 0)
  }

  method PickId(base: string, used: set<string>) returns (id: string)
    ensures id == FirstFree(base, used)
  {
    id := base;
    var index := 2;
    Pigeonhole(base, 0, used);
    while id in used
      invariant index >= 2 && id == Candidate(base, index - 2) && Tried(base, index - 2) <= used
      invariant FirstFree(base, used) == Search(base, used, index - 2)
      decreases |used| - (index - 2)
    {
      Pigeonhole(base, index - 1, used);
      id := Numbered(base, index);
      index := index + 1;
    }
  }

  function Members(ids: seq<string>): set<string> {
    set id | id in ids
  }

  /** The ids given to operations with these names, in document order. */
  function IdsOf(bases: seq<string>): (ids: seq<string>)
    ensures |ids| == |bases|
  {
    if bases == [] then []
    else
      var before := IdsOf(bases[..|bases| - 1]);
      before + [FirstFree(bases[|bases| - 1], Members(before))]
  }

  ghost function Bases(operations: seq<Operation>): (bases: seq<string>)
    reads operations
    ensures |bases| == |operations|
    ensures forall i :: 0 <= i < |bases| ==>
              bases[i] == match operations[i].operationId case Some(id) => id case None => operations[i].generated
  {
    seq(|operations|, i requires 0 <= i < |operations| reads operations => operations[i].Base())
  }

  /** These are the ids of the first operations. */
  ghost predicate Named(bases: seq<string>, ids: seq<string>) {
    |ids| <= |bases| && ids == IdsOf(bases[..|ids|])
  }

  lemma NamedNext(bases: seq<string>, ids: seq<string>, id: string)
    requires Named(bases, ids) && |ids| < |bases| && id == FirstFree(bases[|ids|], Members(ids))
    ensures Named(bases, ids + [id]) && Members(ids + [id]) == Members(ids) + {id}
  {
    assert bases[..|ids| + 1][..|ids|] == bases[..|ids|];
  }

  lemma NamedAll(bases: seq<string>, ids: seq<string>)
    requires Named(bases, ids) && |ids| == |bases|
    ensures ids == IdsOf(bases)
  {
    assert bases[..|bases|] == bases;
  }

  /** Visits the operations in document order and names each one. */
  method AddOperationIds(operations: seq<Operation>)
    requires forall i, j :: 0 <= i < j < |operations| ==> operations[i] != operations[j]
    modifies operations
    ensures forall i :: 0 <= i < |operations| ==> operations[i].operationId == Some(IdsOf(old(Bases(operations)))[i])
  {
    ghost var bases := Bases(operations);
    ghost var ids: seq<string> := [];
    var used: set<string> := {};
    for i := 0 to |operations|
      invariant |ids| == i && Named(bases, ids) && used == Members(ids)
      invariant forall j :: 0 <= j < i ==> operations[j].operationId == Some(ids[j])
      invariant forall j :: i <= j < |operations| ==> operations[j].Base() == bases[j]
    {
      var id := PickId(operations[i].Base(), used);
      operations[i].operationId := Some(id);
      NamedNext(bases, ids, id);
      used := used + {id};
      ids := ids + [id];
    }
    NamedAll(bases, ids);
  }

  // ----- What the ids are

  /** The name found is the base or a numbered variant, and every name before it is in use. */
  lemma {:induction false} SearchMeaning(base: string, used: set<string>, turn: nat) returns (at: nat)
    requires Tried(base, turn) <= used
    ensures at >= turn && Search(base, used, turn) == Candidate(base, at) && Tried(base, at) <= used
    decreases |used| - turn
  {
    at := turn;
    if Candidate(base, turn) in used {
      Pigeonhole(base, turn + 1, used);
      at := SearchMeaning(base, used, turn + 1);
    }
  }

  /** The ids are pairwise distinct. */
  lemma {:induction false} IdsDistinct(bases: seq<string>, i: nat, j: nat)
    requires i < j < |bases|
    ensures IdsOf(bases)[i] != IdsOf(bases)[j]
  {
    var front := bases[..|bases| - 1];
    if j < |front| {
      IdsDistinct(front, i, j);
    } else {
      assert IdsOf(bases)[i] == IdsOf(front)[i];
      assert IdsOf(front)[i] in Members(IdsOf(front));
    }
  }

  lemma {:induction false} IdsOfPrefix(bases: seq<string>, i: nat)
    requires i < |bases|
    ensures IdsOf(bases)[..i] == IdsOf(bases[..i])
    ensures IdsOf(bases)[i] == FirstFree(bases[i], Members(IdsOf(bases[..i])))
  {
    var front := bases[..|bases| - 1];
    assert IdsOf(bases)[..|front|] == IdsOf(front);
    if i < |front| {
      IdsOfPrefix(front, i);
      assert front[..i] == bases[..i];
      assert IdsOf(bases)[..i] == IdsOf(front)[..i];
    }
  }

  lemma FirstFreeMeaning(base: string, used: set<string>) returns (k: nat)
    ensures FirstFree(base, used) == if k < 2 then base else Numbered(base, k)
    ensures k >= 2 ==> base in used && forall m :: 2 <= m < k ==> Numbered(base, m) in used
  {
    var at := SearchMeaning(base, used, 0);
    k := at + 1;
    if k >= 2 {
      TriedExactly(base, 0, at);
      assert Candidate(base, 0) in used;
      forall m | 2 <= m < k ensures Numbered(base, m) in used {
        TriedExactly(base, m - 1, at);
        assert Candidate(base, m - 1) in used;
      }
    }
  }

  /**
   Each id is its base or the base with a number k of at least 2, and then the base itself and
   the base with every smaller number are ids of earlier operations.
   */
  lemma {:induction false} IdIsFirstFreeVariant(bases: seq<string>, i: nat) returns (k: nat)
    requires i < |bases|
    ensures IdsOf(bases)[i] == if k < 2 then bases[i] else bases[i] + "_" + Decimal(k)
    ensures k >= 2 ==> bases[i] in IdsOf(bases)[..i]
    ensures k >= 2 ==> forall m :: 2 <= m < k ==> bases[i] + "_" + Decimal(m) in IdsOf(bases)[..i]
  {
    IdsOfPrefix(bases, i);
    k := FirstFreeMeaning(bases[i], Members(IdsOf(bases[..i])));
    forall m | k >= 2 && 2 <= m < k ensures bases[i] + "_" + Decimal(m) in IdsOf(bases)[..i] {
      assert Numbered(bases[i], m) in Members(IdsOf(bases[..i]));
    }
  }

  lemma {:induction false} DistinctNamesAreKept(bases: seq<string>)
    requires forall i, j :: 0 <= i < j < |bases| ==> bases[i] != bases[j]
    ensures IdsOf(bases) == bases
  {
    if bases != [] {
      DistinctNamesAreKept(bases[..|bases| - 1]);
    }
  }

  /** The names change nothing exactly when they are distinct already. */
  lemma {:induction false} KeptIffDistinct(bases: seq<string>)
    ensures IdsOf(bases) == bases <==> forall i, j :: 0 <= i < j < |bases| ==> bases[i] != bases[j]
  {
    forall i, j | 0 <= i < j < |bases| ensures IdsOf(bases)[i] != IdsOf(bases)[j] {
      IdsDistinct(bases, i, j);
    }
    if forall i, j :: 0 <= i < j < |bases| ==> bases[i] != bases[j] {
      DistinctNamesAreKept(bases);
    }
  }

  /** Naming the operations again changes nothing. */
  lemma {:induction false} SecondRunChangesNothing(bases: seq<string>)
    ensures IdsOf(IdsOf(bases)) == IdsOf(bases)
  {
    forall i, j | 0 <= i < j < |bases| ensures IdsOf(bases)[i] != IdsOf(bases)[j] {
      IdsDistinct(bases, i, j);
    }
    KeptIffDistinct(IdsOf(bases));
  }
}
