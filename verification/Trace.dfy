/** Allocation traces: the requests of a .rep file and when they make sense. */
module Trace {
  import opened Memory

  datatype Op =
    | Alloc(id: nat, size: nat)
    | Realloc(id: nat, size: nat)
    | Free(id: nat)

  /** The sizes of the blocks that are outstanding after ops, by id. */
  function Outstanding(ops: seq<Op>): map<nat, nat> {
    if ops == [] then map[]
    else Step(Outstanding(ops[..|ops| - 1]), ops[|ops| - 1])
  }

  function Step(live: map<nat, nat>, op: Op): map<nat, nat> {
    match op
    case Alloc(id, size) => live[id := size]
    case Realloc(id, size) => live[id := size]
    case Free(id) => live - {id}
  }

  /** An alloc names an id that is not outstanding, the others one that is; sizes are ints. */
  predicate OpOk(op: Op, live: map<nat, nat>, numIds: nat) {
    match op
    case Alloc(id, size) => id < numIds && id !in live && size < INT_SPAN
    case Realloc(id, size) => id in live && size < INT_SPAN
    case Free(id) => id in live
  }

  ghost predicate WellFormed(ops: seq<Op>, numIds: nat) {
    forall i: nat {:trigger ops[i]} :: i < |ops| ==> OpOk(ops[i], Outstanding(ops[..i]), numIds)
  }

  /** The driver can get past this request: it asks for at least one byte, and if it is a
      realloc the low byte of its id survives the comparison with a signed char. */
  predicate Passable(op: Op) {
    match op
    case Alloc(_, size) => size > 0
    case Realloc(id, size) => size > 0 && id % 0x100 < 0x80
    case Free(_) => true
  }

  ghost predicate AllPassable(ops: seq<Op>) {
    forall i {:trigger ops[i]} :: 0 <= i < |ops| ==> Passable(ops[i])
  }

  lemma OutstandingSnoc(ops: seq<Op>, i: nat)
    requires i < |ops|
    ensures Outstanding(ops[..i + 1]) == Step(Outstanding(ops[..i]), ops[i])
  {
    assert ops[..i + 1][..i] == ops[..i];
  }

  lemma {:induction false} OutstandingIds(ops: seq<Op>, i: nat, numIds: nat)
    requires WellFormed(ops, numIds) && i <= |ops|
    ensures forall id :: id in Outstanding(ops[..i]) ==> id < numIds && Outstanding(ops[..i])[id] < INT_SPAN
  {
    if i > 0 {
      OutstandingIds(ops, i - 1, numIds);
      OutstandingSnoc(ops, i - 1);
      assert OpOk(ops[i - 1], Outstanding(ops[..i - 1]), numIds);
    }
  }

  /** The request does not ask for zero bytes. */
  predicate NonEmpty(op: Op) {
    op.Free? || op.size > 0
  }

  ghost predicate AllNonEmpty(ops: seq<Op>) {
    forall i {:trigger ops[i]} :: 0 <= i < |ops| ==> NonEmpty(ops[i])
  }

  lemma NonEmptySnoc(ops: seq<Op>, i: nat)
    requires i < |ops|
    ensures AllNonEmpty(ops[..i + 1]) <==> AllNonEmpty(ops[..i]) && NonEmpty(ops[i])
    ensures !NonEmpty(ops[i]) ==> !AllNonEmpty(ops)
  {
    assert ops[..i + 1] == ops[..i] + [ops[i]];
  }

  lemma PassableSnoc(ops: seq<Op>, i: nat)
    requires i < |ops|
    ensures AllPassable(ops[..i + 1]) <==> AllPassable(ops[..i]) && Passable(ops[i])
    ensures !Passable(ops[i]) ==> !AllPassable(ops)
  {
    assert ops[..i + 1] == ops[..i] + [ops[i]];
  }

  // ----- total demand -----

  /** The sizes of the blocks in ids added up. */
  ghost function SumOver(ids: set<nat>, live: map<nat, nat>): nat
    requires ids <= live.Keys
    decreases |ids|
  {
    if ids == {} then 0 else var x :| x in ids; live[x] + SumOver(ids - {x}, live)
  }

  lemma {:induction false} SumOverSplit(ids: set<nat>, live: map<nat, nat>, y: nat)
    requires ids <= live.Keys && y in ids
    ensures SumOver(ids, live) == live[y] + SumOver(ids - {y}, live)
    decreases |ids|
  {
    var x :| x in ids && SumOver(ids, live) == live[x] + SumOver(ids - {x}, live);
    if x != y {
      SumOverSplit(ids - {x}, live, y);
      SumOverSplit(ids - {y}, live, x);
      assert ids - {x} - {y} == ids - {y} - {x};
    }
  }

  lemma {:induction false} SumOverSame(ids: set<nat>, live: map<nat, nat>, live': map<nat, nat>)
    requires ids <= live.Keys && ids <= live'.Keys
    requires forall x :: x in ids ==> live[x] == live'[x]
    ensures SumOver(ids, live) == SumOver(ids, live')
    decreases |ids|
  {
    if ids != {} {
      var x :| x in ids;
      SumOverSplit(ids, live, x);
      SumOverSplit(ids, live', x);
      SumOverSame(ids - {x}, live, live');
    }
  }

  /** The bytes outstanding. */
  ghost function Total(live: map<nat, nat>): nat {
    SumOver(live.Keys, live)
  }

  /** How one request changes the bytes outstanding. */
  lemma TotalStep(live: map<nat, nat>, op: Op, numIds: nat)
    requires OpOk(op, live, numIds)
    ensures Total(Step(live, op)) == match op
      case Alloc(_, size) => Total(live) + size
      case Realloc(id, size) => Total(live) + size - live[id]
      case Free(id) => Total(live) - live[id]
  {
    var live' := Step(live, op);
    var id := op.id;
    if op.Free? {
      SumOverSplit(live.Keys, live, id);
      assert live'.Keys == live.Keys - {id};
      SumOverSame(live'.Keys, live, live');
    } else {
      SumOverSplit(live'.Keys, live', id);
      var rest := live'.Keys - {id};
      assert rest == live.Keys - {id};
      SumOverSame(rest, live, live');
      if id in live {
        SumOverSplit(live.Keys, live, id);
      } else {
        assert rest == live.Keys;
      }
    }
  }

  /** The most bytes ever outstanding at once. */
  ghost function Peak(ops: seq<Op>): nat {
    if ops == [] then 0
    else
      var before, now := Peak(ops[..|ops| - 1]), Total(Outstanding(ops));
      if now > before then now else before
  }

  lemma PeakSnoc(ops: seq<Op>, i: nat)
    requires i < |ops|
    ensures Peak(ops[..i + 1]) ==
            if Total(Outstanding(ops[..i + 1])) > Peak(ops[..i]) then Total(Outstanding(ops[..i + 1])) else Peak(ops[..i])
  {
    assert ops[..i + 1][..i] == ops[..i];
  }

  lemma {:induction false} PeakIsMaximum(ops: seq<Op>)
    ensures forall i :: 0 <= i <= |ops| ==> Total(Outstanding(ops[..i])) <= Peak(ops)
    ensures exists i :: 0 <= i <= |ops| && Total(Outstanding(ops[..i])) == Peak(ops)
  {
    if ops == [] {
      assert ops[..0] == [];
      assert Total(Outstanding(ops[..0])) == Peak(ops);
    } else {
      var n := |ops| - 1;
      PeakIsMaximum(ops[..n]);
      PeakSnoc(ops, n);
      assert ops[..n + 1] == ops;
      forall i | 0 <= i <= |ops|
        ensures Total(Outstanding(ops[..i])) <= Peak(ops)
      {
        if i <= n {
          assert ops[..n][..i] == ops[..i];
        }
      }
      if Peak(ops) == Peak(ops[..n]) {
        var i :| 0 <= i <= n && Total(Outstanding(ops[..n][..i])) == Peak(ops[..n]);
        assert ops[..n][..i] == ops[..i];
      } else {
        assert Total(Outstanding(ops[..n + 1])) == Peak(ops);
      }
    }
  }

  /** A free never sets a new peak. */
  lemma PeakStep(ops: seq<Op>, i: nat, numIds: nat)
    requires WellFormed(ops, numIds) && i < |ops|
    requires Total(Outstanding(ops[..i])) <= Peak(ops[..i])
    ensures var total := Total(Outstanding(ops[..i + 1]));
            && Peak(ops[..i + 1]) == (if !ops[i].Free? && total > Peak(ops[..i]) then total else Peak(ops[..i]))
            && total <= Peak(ops[..i + 1])
  {
    OutstandingSnoc(ops, i);
    PeakSnoc(ops, i);
    TotalStep(Outstanding(ops[..i]), ops[i], numIds);
  }
}
