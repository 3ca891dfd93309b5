/**
 Any reordering of a sequence of records is as good as the sequence, if it keeps the order of those records
 that depend on each other: records of one field, of one union, and of fixed-count fields.
 */
module Reordering {
  import opened Wire
  import opened Descriptor
  import opened Decoding
  import opened Options
  import opened Records

  /** Decodes each of the byte strings as one record. */
  function RunRecords(fields: seq<Field>, rs: seq<seq<byte>>, st: Progress): Option<Progress>
    decreases |rs|
  {
    if rs == [] then Some(st)
    else
      var t := DecodeRecord(fields, rs[0], st);
      if t.Next? && t.used == |rs[0]| then RunRecords(fields, rs[1..], t.st) else None
  }

  lemma {:induction false} RunIsThrough(fields: seq<Field>, rs: seq<seq<byte>>, st: Progress)
    requires RunRecords(fields, rs, st).Some?
    ensures Through(fields, Concat(rs), st) == RunRecords(fields, rs, st)
    decreases |rs|
  {
    hide DecodeRecord, Through;
    if rs == [] {
      assert Through(fields, [], st) == Some(st) by { ThroughNothing(fields, st); }
    } else {
      OneRecord(fields, rs[0], st);
      RunIsThrough(fields, rs[1..], DecodeRecord(fields, rs[0], st).st);
      ThroughConcat(fields, rs[0], Concat(rs[1..]), st);
    }
  }

  lemma ThroughNothing(fields: seq<Field>, st: Progress)
    ensures Through(fields, [], st) == Some(st)
  {
  }

  // ---------------------------------------------------------------------------------------
  // Permutations
  // ---------------------------------------------------------------------------------------

  /** `from` says which record comes to each place, `to` to which place each record comes. */
  predicate Inverse(from: seq<nat>, to: seq<nat>) {
    && |from| == |to|
    && (forall k :: 0 <= k < |from| ==> from[k] < |to| && to[from[k]] == k)
    && (forall y :: 0 <= y < |to| ==> to[y] < |from| && from[to[y]] == y)
  }

  function Reordered(rs: seq<seq<byte>>, from: seq<nat>): (qs: seq<seq<byte>>)
    requires forall k :: 0 <= k < |from| ==> from[k] < |rs|
    ensures |qs| == |from| && forall k :: 0 <= k < |from| ==> qs[k] == rs[from[k]]
  {
    seq(|from|, k requires 0 <= k < |from| => rs[from[k]])
  }

  /** Only independent records change places. */
  predicate KeepsOrder(fields: seq<Field>, rs: seq<seq<byte>>, to: seq<nat>)
    requires |to| == |rs|
  {
    forall y, z :: 0 <= y < z < |rs| && to[y] > to[z] ==> Independent(fields, rs[y], rs[z])
  }

  function Without(rs: seq<seq<byte>>, x: nat): (r: seq<seq<byte>>)
    requires x < |rs|
    ensures |r| == |rs| - 1 && forall k :: 0 <= k < |r| ==> r[k] == rs[Skip(x, k)]
  {
    rs[..x] + rs[x + 1..]
  }

  /** Places before and after one is taken out. */
  function Skip(x: nat, k: nat): nat {
    if k < x then k else k + 1
  }

  function Close(x: nat, y: nat): nat
    requires y != x
  {
    if y < x then y else y - 1
  }

  /** A record moves to the front past records that it does not depend on. */
  lemma {:induction false} MoveToFront(fields: seq<Field>, rs: seq<seq<byte>>, x: nat, st: Progress)
    requires x < |rs| && RunRecords(fields, rs, st).Some?
    requires forall y :: 0 <= y < x ==> Independent(fields, rs[y], rs[x])
    ensures RunRecords(fields, [rs[x]] + Without(rs, x), st) == RunRecords(fields, rs, st)
    ensures |Concat([rs[x]] + Without(rs, x))| == |Concat(rs)|
    decreases |rs|
  {
    hide DecodeRecord, Independent;
    if x == 0 {
      assert [rs[0]] + Without(rs, 0) == rs;
    } else {
      var r, rest := rs[0], Without(rs[1..], x - 1);
      var st1 := DecodeRecord(fields, r, st).st;
      MoveToFront(fields, rs[1..], x - 1, st1);
      RunTwo(fields, r, rs[x], rest, st);
      RecordsCommute(fields, r, rs[x], st);
      RunTwo(fields, rs[x], r, rest, st);
      assert [rs[x]] + Without(rs, x) == [rs[x], r] + rest;
      assert RunRecords(fields, rs, st) == RunRecords(fields, [r, rs[x]] + rest, st) by {
        assert ([r, rs[x]] + rest)[1..] == [rs[x]] + rest;
      }
      ConcatTwo(r, rs[x], rest);
      ConcatTwo(rs[x], r, rest);
      assert |Concat(rs)| == |r| + |Concat(rs[1..])|;
      assert ([rs[x]] + rest)[1..] == rest;
    }
  }

  lemma RunTwo(fields: seq<Field>, r: seq<byte>, q: seq<byte>, rest: seq<seq<byte>>, st: Progress)
    ensures RunRecords(fields, [r, q] + rest, st)
         == if InOrder(fields, r, q, st) then RunRecords(fields, rest, Both(fields, r, q, st)) else None
  {
    hide DecodeRecord;
    var rs := [r, q] + rest;
    assert rs[1..] == [q] + rest && ([q] + rest)[1..] == rest;
  }

  lemma ConcatTwo(r: seq<byte>, q: seq<byte>, rest: seq<seq<byte>>)
    ensures |Concat([r, q] + rest)| == |r| + |q| + |Concat(rest)| && |Concat([q] + rest)| == |q| + |Concat(rest)|
  {
    assert ([r, q] + rest)[1..] == [q] + rest && ([q] + rest)[1..] == rest;
  }

  /** The permutation of the other records, once the first one is in its place. */
  lemma RestOfPermutation(from: seq<nat>, to: seq<nat>) returns (from2: seq<nat>, to2: seq<nat>)
    requires Inverse(from, to) && from != []
    ensures |from2| == |from| - 1 && Inverse(from2, to2)
    ensures forall k :: 0 <= k < |from2| ==> from[k + 1] == Skip(from[0], from2[k])
    ensures forall y :: 0 <= y < |to2| ==> to2[y] == to[Skip(from[0], y)] - 1
  {
    var x, n := from[0], |from| - 1;
    forall k | 0 < k <= n ensures from[k] != x { assert to[from[k]] == k; }
    forall y | 0 <= y < n ensures Skip(x, y) <= n && to[Skip(x, y)] > 0 { assert from[to[Skip(x, y)]] == Skip(x, y); }
    from2 := seq(n, k requires 0 <= k < n => Close(x, from[k + 1]));
    to2 := seq(n, y requires 0 <= y < n => to[Skip(x, y)] - 1);
    forall k | 0 <= k < n ensures from2[k] < n && to2[from2[k]] == k {
      assert Skip(x, from2[k]) == from[k + 1] && to[from[k + 1]] == k + 1;
    }
    forall y | 0 <= y < n ensures to2[y] < n && from2[to2[y]] == y {
      var z := Skip(x, y);
      assert from[to[z]] == z && from2[to2[y]] == Close(x, from[to2[y] + 1]);
    }
  }

  /** A reordering that keeps the order of dependent records leads to the same state. */
  lemma {:induction false} ReorderedRun(fields: seq<Field>, rs: seq<seq<byte>>, from: seq<nat>, to: seq<nat>, st: Progress)
    requires Inverse(from, to) && |from| == |rs| && KeepsOrder(fields, rs, to)
    requires RunRecords(fields, rs, st).Some?
    ensures RunRecords(fields, Reordered(rs, from), st) == RunRecords(fields, rs, st)
    ensures |Concat(Reordered(rs, from))| == |Concat(rs)|
    decreases |rs|
  {
    hide DecodeRecord, Independent, Concat;
    if rs == [] {
      assert Reordered(rs, from) == rs;
    } else {
      var x, qs := from[0], Reordered(rs, from);
      forall y | 0 <= y < x ensures Independent(fields, rs[y], rs[x]) {
        assert to[x] == 0 && from[to[y]] == y;
      }
      MoveToFront(fields, rs, x, st);
      var moved, rest := [rs[x]] + Without(rs, x), Without(rs, x);
      assert moved[1..] == rest && moved[0] == rs[x] == qs[0];
      var from2, to2 := RestOfPermutation(from, to);
      assert KeepsOrder(fields, rest, to2) by { RestKeepsOrder(fields, rs, from, to, to2); }
      var st1 := DecodeRecord(fields, rs[x], st).st;
      ReorderedRun(fields, rest, from2, to2, st1);
      assert Reordered(rest, from2) == qs[1..];
      ConcatFirst(moved);
      ConcatFirst(qs);
    }
  }

  lemma ConcatFirst(rs: seq<seq<byte>>)
    requires rs != []
    ensures |Concat(rs)| == |rs[0]| + |Concat(rs[1..])|
  {
  }

  lemma RestKeepsOrder(fields: seq<Field>, rs: seq<seq<byte>>, from: seq<nat>, to: seq<nat>, to2: seq<nat>)
    requires Inverse(from, to) && from != [] && |from| == |rs| && KeepsOrder(fields, rs, to) && |to2| == |rs| - 1
    requires forall y :: 0 <= y < |to2| ==> to2[y] == to[Skip(from[0], y)] - 1
    ensures KeepsOrder(fields, Without(rs, from[0]), to2)
  {
    hide Independent;
    var x, rest := from[0], Without(rs, from[0]);
    forall y, z | 0 <= y < z < |rest| && to2[y] > to2[z] ensures Independent(fields, rest[y], rest[z]) {
      assert Skip(x, y) < Skip(x, z) && to[Skip(x, y)] > to[Skip(x, z)];
    }
  }

  /**
   Wherever a sequence of records stands in the input, any reordering of it that keeps the order of dependent
   records leaves the message and the result unchanged.
   */
  lemma ReorderingIsHarmless(
      fields: seq<Field>, a: seq<byte>, rs: seq<seq<byte>>, from: seq<nat>, to: seq<nat>, b: seq<byte>, msg: Message)
    requires Inverse(from, to) && |from| == |rs| && KeepsOrder(fields, rs, to)
    requires Through(fields, a, Start(msg)).Some? && RunRecords(fields, rs, Through(fields, a, Start(msg)).value).Some?
    ensures DecodeNoInit(fields, a + (Concat(Reordered(rs, from)) + b), msg) == DecodeNoInit(fields, a + (Concat(rs) + b), msg)
  {
    hide DecodeRecord, DecodeLoop, Through, Concat, RunRecords;
    var st, qs := Through(fields, a, Start(msg)).value, Reordered(rs, from);
    ReorderedRun(fields, rs, from, to, st);
    RunIsThrough(fields, rs, st);
    RunIsThrough(fields, qs, st);
    ThroughConcat(fields, a, Concat(rs) + b, Start(msg));
    ThroughConcat(fields, a, Concat(qs) + b, Start(msg));
    ThroughConcat(fields, Concat(rs), b, st);
    ThroughConcat(fields, Concat(qs), b, st);
  }
}
