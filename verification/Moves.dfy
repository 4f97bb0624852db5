/** The record of a compaction: the questions vm_unix::defragment asks its callback, with the answers. */
module Moves {
  import opened Arenas

  datatype Call = Call(from: nat, to: nat, moved: bool)

  /** A callback may depend on everything it was asked before. */
  type MoveFun = (seq<Call>, nat, nat) -> bool

  ghost predicate Replays(move: MoveFun, log: seq<Call>) {
    forall k | 0 <= k < |log| :: log[k].moved == move(log[..k], log[k].from, log[k].to)
  }

  /** The blocks after the accepted moves of the log, applied in order. */
  ghost function DataAfter(d: map<nat, Block>, log: seq<Call>): map<nat, Block> {
    if log == [] then d
    else
      var e := log[|log| - 1];
      var prev := DataAfter(d, log[..|log| - 1]);
      if e.moved then Move(prev, e.from, e.to) else prev
  }

  /** The blocks that were moved away, and where they were moved to. */
  ghost function Froms(log: seq<Call>): set<nat> {
    if log == [] then {}
    else Froms(log[..|log| - 1]) + (if log[|log| - 1].moved then {log[|log| - 1].from} else {})
  }

  ghost function Tos(log: seq<Call>): set<nat> {
    if log == [] then {}
    else Tos(log[..|log| - 1]) + (if log[|log| - 1].moved then {log[|log| - 1].to} else {})
  }

  /** The blocks that the callback has refused to move. */
  ghost predicate Refused(log: seq<Call>, id: nat) {
    exists k :: 0 <= k < |log| && log[k].from == id && !log[k].moved
  }

  lemma RefusedMore(log: seq<Call>, more: seq<Call>, id: nat)
    requires Refused(log, id) && log <= more
    ensures Refused(more, id)
  {
    var k :| 0 <= k < |log| && log[k].from == id && !log[k].moved;
    assert more[k] == log[k];
  }

  /** Every question names a used block and an unused one; what was moved stays where it was put,
      and what it left is not filled again. */
  ghost predicate LogOk(d: map<nat, Block>, log: seq<Call>) {
    log == [] ||
    var e, prev := log[|log| - 1], log[..|log| - 1];
    && LogOk(d, prev)
    && e.from in DataAfter(d, prev) && e.to !in DataAfter(d, prev)
    && e.from !in Tos(prev) && e.to !in Froms(prev)
  }

  lemma LogExtend(d: map<nat, Block>, log: seq<Call>, e: Call)
    requires LogOk(d, log) && e.from in DataAfter(d, log) && e.to !in DataAfter(d, log)
    requires e.from !in Tos(log) && e.to !in Froms(log)
    ensures LogOk(d, log + [e])
    ensures DataAfter(d, log + [e]) ==
      if e.moved then Move(DataAfter(d, log), e.from, e.to) else DataAfter(d, log)
    ensures Froms(log + [e]) == Froms(log) + (if e.moved then {e.from} else {})
    ensures Tos(log + [e]) == Tos(log) + (if e.moved then {e.to} else {})
  {
    assert (log + [e])[..|log|] == log;
  }

  lemma ReplaysNone(move: MoveFun)
    ensures Replays(move, [])
  {
  }

  lemma ReplaysExtend(move: MoveFun, log: seq<Call>, e: Call)
    requires Replays(move, log) && e.moved == move(log, e.from, e.to)
    ensures Replays(move, log + [e])
  {
    var l := log + [e];
    forall k | 0 <= k < |l| ensures l[k].moved == move(l[..k], l[k].from, l[k].to) {
      assert l[..k] == log[..k];
      if k == |log| { assert log[..k] == log; }
    }
  }

  /** Compaction conserves the blocks: exactly the moved ones change their id. */
  lemma {:induction false} MovedKeys(d: map<nat, Block>, log: seq<Call>)
    requires LogOk(d, log)
    ensures Froms(log) <= d.Keys && Tos(log) !! d.Keys
    ensures DataAfter(d, log).Keys == d.Keys - Froms(log) + Tos(log)
    ensures |DataAfter(d, log)| == |d|
  {
    hide Move;
    if log != [] {
      var e, prev := log[|log| - 1], log[..|log| - 1];
      var p := DataAfter(d, prev);
      MovedKeys(d, prev);
      if e.moved {
        MoveOne(p, e.from, e.to);
        assert DataAfter(d, log) == Move(p, e.from, e.to);
        StepSets(d.Keys, Froms(prev), Tos(prev), p.Keys, e.from, e.to);
      }
    }
  }

  function Move(p: map<nat, Block>, from: nat, to: nat): map<nat, Block> {
    if from in p then (p - {from})[to := p[from]] else p
  }

  lemma StepSets(d: set<nat>, f: set<nat>, t: set<nat>, p: set<nat>, from: nat, to: nat)
    requires f <= d && t !! d && p == d - f + t
    requires from in p && to !in p && from !in t && to !in f
    ensures f + {from} <= d && t + {to} !! d
    ensures p - {from} + {to} == d - (f + {from}) + (t + {to})
  {
  }

  lemma MoveOne(p: map<nat, Block>, from: nat, to: nat)
    requires from in p && to !in p
    ensures Move(p, from, to).Keys == p.Keys - {from} + {to}
    ensures |Move(p, from, to)| == |p|
  {
    assert (p - {from}).Keys == p.Keys - {from};
    assert |Move(p, from, to).Keys| == |p.Keys|;
  }

  /** A block that is not moved keeps its bytes. */
  lemma {:induction false} KeptData(d: map<nat, Block>, log: seq<Call>, id: nat)
    requires LogOk(d, log) && id in d && id !in Froms(log)
    ensures id in DataAfter(d, log) && DataAfter(d, log)[id] == d[id]
  {
    if log != [] {
      KeptData(d, log[..|log| - 1], id);
    }
  }

  lemma NotMovedYet(d: map<nat, Block>, log: seq<Call>, id: nat)
    requires LogOk(d, log) && id in DataAfter(d, log) && id !in Tos(log)
    ensures id in d && id !in Froms(log)
  {
    hide Froms, Tos, DataAfter, LogOk;
    MovedKeys(d, log);
    assert id in d.Keys - Froms(log) + Tos(log);
  }

  /** A moved block holds at its new id the bytes it had at the start. */
  lemma {:induction false} MovedData(d: map<nat, Block>, log: seq<Call>, k: nat)
    requires LogOk(d, log) && k < |log| && log[k].moved
    ensures log[k].from in d && log[k].to in DataAfter(d, log)
    ensures DataAfter(d, log)[log[k].to] == d[log[k].from]
  {
    var n := |log| - 1;
    var e, prev := log[n], log[..n];
    if k < n {
      assert prev[k] == log[k];
      MovedData(d, prev, k);
      MovedIn(prev, k);
      assert log[k].to != e.from;
      assert log[k].to != e.to;
    } else {
      NotMovedYet(d, prev, e.from);
      KeptData(d, prev, e.from);
    }
  }

  /** No block is moved to the place of one whose move was refused. */
  lemma RefusedNotFilled(d: map<nat, Block>, log: seq<Call>, id: nat)
    requires LogOk(d, log) && Refused(log, id)
    ensures id !in Tos(log)
  {
    hide LogOk, DataAfter, Tos;
    MovedKeys(d, log);
    var k: nat :| k < |log| && log[k].from == id && !log[k].moved;
    AskedKnown(d, log, k);
  }

  /** Every question is about a block that was used at the start. */
  lemma {:induction false} AskedKnown(d: map<nat, Block>, log: seq<Call>, k: nat)
    requires LogOk(d, log) && k < |log|
    ensures log[k].from in d
  {
    hide DataAfter;
    var n := |log| - 1;
    var e, prev := log[n], log[..n];
    if k < n {
      assert prev[k] == log[k];
      AskedKnown(d, prev, k);
    } else {
      NotMovedYet(d, prev, e.from);
    }
  }

  /** Something is moved exactly if some id is not used any more. */
  lemma MovedChanges(d: map<nat, Block>, log: seq<Call>)
    requires LogOk(d, log)
    ensures (exists k :: 0 <= k < |log| && log[k].moved) <==> DataAfter(d, log).Keys != d.Keys
  {
    hide DataAfter, LogOk;
    MovedKeys(d, log);
    if k :| 0 <= k < |log| && log[k].moved { MovedIn(log, k); }
    if forall k | 0 <= k < |log| :: !log[k].moved { NothingMoved(log); }
  }

  lemma {:induction false} NothingMoved(log: seq<Call>)
    requires forall k | 0 <= k < |log| :: !log[k].moved
    ensures Froms(log) == {} && Tos(log) == {}
  {
    if log != [] { NothingMoved(log[..|log| - 1]); }
  }

  lemma {:induction false} MovedIn(log: seq<Call>, k: nat)
    requires k < |log| && log[k].moved
    ensures log[k].from in Froms(log) && log[k].to in Tos(log)
  {
    if k < |log| - 1 {
      assert log[..|log| - 1][k] == log[k];
      MovedIn(log[..|log| - 1], k);
    }
  }
}
