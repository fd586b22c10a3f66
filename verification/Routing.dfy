/** Where a selector write goes, as a function of the connections made
    (core/sr_signal/sr_signal_selector.h and sr_signal_connect.h). */
module Routing {
  import opened Options
  import opened Words

  /** Output channel `out` of the selector was connected to channel `input` of a field. */
  datatype Conn<F> = Conn(out: nat, field: F, input: nat)

  /** The channel of field f that output channel c feeds: a second connection of the two
      changes nothing. */
  ghost function First<F>(h: seq<Conn<F>>, c: nat, f: F): Option<nat> {
    if h == [] then None
    else
      match First(h[..|h| - 1], c, f)
      case Some(i) => Some(i)
      case None => if h[|h| - 1].out == c && h[|h| - 1].field == f then Some(h[|h| - 1].input) else None
  }

  ghost predicate Chosen<F>(h: seq<Conn<F>>, f: F, mask: set<nat>, c: nat) {
    c in mask && First(h, c, f).Some?
  }

  /** The callbacks of field f when the channels of keys are written in turn. */
  ghost function Calls<F, T>(h: seq<Conn<F>>, f: F, keys: seq<nat>, mask: set<nat>, v: T): seq<(T, nat)> {
    if keys == [] then []
    else
      var c := keys[|keys| - 1];
      Calls(h, f, keys[..|keys| - 1], mask, v) + (if Chosen(h, f, mask, c) then [(v, First(h, c, f).value)] else [])
  }

  /** The channel values of field f after the same writes. */
  ghost function ValuesAfter<F, T>(values: map<nat, T>, h: seq<Conn<F>>, f: F, keys: seq<nat>, mask: set<nat>,
                                   v: T): map<nat, T> {
    if keys == [] then values
    else
      var c := keys[|keys| - 1];
      var before := ValuesAfter(values, h, f, keys[..|keys| - 1], mask, v);
      if Chosen(h, f, mask, c) then before[First(h, c, f).value := v] else before
  }

  // ----- what this means for a history of connections

  /** No two connections join the same output channel and field. */
  ghost predicate DistinctConnections<F>(h: seq<Conn<F>>) {
    forall i, j :: 0 <= i < j < |h| ==> h[i].out != h[j].out || h[i].field != h[j].field
  }

  lemma {:induction false} FirstIsMade<F>(h: seq<Conn<F>>, c: nat, f: F)
    ensures First(h, c, f).Some? ==> Conn(c, f, First(h, c, f).value) in h
    ensures First(h, c, f).None? ==> forall k :: 0 <= k < |h| ==> h[k].out != c || h[k].field != f
  {
    if h != [] {
      FirstIsMade(h[..|h| - 1], c, f);
      assert forall k :: 0 <= k < |h| - 1 ==> h[k] == h[..|h| - 1][k];
    }
  }

  /** With distinct connections every one of them counts. */
  lemma FirstIsTheConnection<F>(h: seq<Conn<F>>, c: nat, f: F, i: nat)
    requires DistinctConnections(h)
    ensures First(h, c, f) == Some(i) <==> Conn(c, f, i) in h
  {
    FirstIsMade(h, c, f);
    if Conn(c, f, i) in h {
      var k :| 0 <= k < |h| && h[k] == Conn(c, f, i);
      var m :| 0 <= m < |h| && h[m] == Conn(c, f, First(h, c, f).value);
      assert k == m;
    }
  }

  lemma {:induction false} ValuesAfterAt<F, T>(values: map<nat, T>, h: seq<Conn<F>>, f: F, keys: seq<nat>,
      mask: set<nat>, v: T, i: nat)
    requires i in values
    ensures i in ValuesAfter(values, h, f, keys, mask, v)
    ensures ValuesAfter(values, h, f, keys, mask, v)[i] ==
            if exists c :: c in keys && c in mask && First(h, c, f) == Some(i) then v else values[i]
  {
    if keys != [] {
      var front, last := keys[..|keys| - 1], keys[|keys| - 1];
      ValuesAfterAt(values, h, f, front, mask, v, i);
      assert keys == front + [last];
    }
  }

  lemma {:induction false} ValuesKeep<F, T>(values: map<nat, T>, h: seq<Conn<F>>, f: F, keys: seq<nat>, mask: set<nat>, v: T)
    requires forall c :: c in keys && First(h, c, f).Some? ==> First(h, c, f).value in values
    ensures ValuesAfter(values, h, f, keys, mask, v).Keys == values.Keys
  {
    if keys != [] {
      assert keys[|keys| - 1] in keys;
      ValuesKeep(values, h, f, keys[..|keys| - 1], mask, v);
    }
  }

  /** A write with a mask gives the value to exactly those channels of a field that are
      connected to a channel in the mask, and leaves all others alone. */
  lemma WriteReaches<F, T>(values: map<nat, T>, h: seq<Conn<F>>, f: F, keys: seq<nat>, mask: set<nat>, v: T, i: nat)
    requires DistinctConnections(h) && i in values
    requires forall k :: 0 <= k < |h| ==> h[k].out in keys
    ensures i in ValuesAfter(values, h, f, keys, mask, v)
    ensures ValuesAfter(values, h, f, keys, mask, v)[i] ==
            if exists c :: c in mask && Conn(c, f, i) in h then v else values[i]
  {
    ValuesAfterAt(values, h, f, keys, mask, v, i);
    forall c ensures First(h, c, f) == Some(i) <==> Conn(c, f, i) in h {
      FirstIsTheConnection(h, c, f, i);
    }
    forall c | Conn(c, f, i) in h ensures c in keys {
      var k :| 0 <= k < |h| && h[k] == Conn(c, f, i);
    }
  }

  ghost predicate Ascending(keys: seq<nat>) {
    forall i, j :: 0 <= i < j < |keys| ==> keys[i] < keys[j]
  }

  /** The channels of keys that are selected by the mask and connected to f. */
  ghost function AllChosen<F>(h: seq<Conn<F>>, f: F, keys: seq<nat>, mask: set<nat>): set<nat> {
    set c | c in keys && Chosen(h, f, mask, c)
  }

  lemma ChosenMore<F>(h: seq<Conn<F>>, f: F, front: seq<nat>, last: nat, mask: set<nat>)
    requires last !in front
    ensures |AllChosen(h, f, front + [last], mask)| ==
            |AllChosen(h, f, front, mask)| + (if Chosen(h, f, mask, last) then 1 else 0)
  {
    var a, b := AllChosen(h, f, front, mask), AllChosen(h, f, front + [last], mask);
    if Chosen(h, f, mask, last) {
      assert b == a + {last};
    } else {
      assert b == a;
    }
  }

  lemma LastIsNew(keys: seq<nat>)
    requires Ascending(keys) && keys != []
    ensures Ascending(keys[..|keys| - 1]) && keys[|keys| - 1] !in keys[..|keys| - 1]
    ensures keys == keys[..|keys| - 1] + [keys[|keys| - 1]]
  {
  }

  /** Each selected and connected output channel causes one callback. */
  lemma {:induction false} OneCallEach<F, T>(h: seq<Conn<F>>, f: F, keys: seq<nat>, mask: set<nat>, v: T)
    requires Ascending(keys)
    ensures |Calls(h, f, keys, mask, v)| == |AllChosen(h, f, keys, mask)|
  {
    if keys == [] {
      assert AllChosen(h, f, keys, mask) == {};
    } else {
      LastIsNew(keys);
      OneCallEach(h, f, keys[..|keys| - 1], mask, v);
      ChosenMore(h, f, keys[..|keys| - 1], keys[|keys| - 1], mask);
    }
  }

  /** Every callback brings the value, on a channel that is connected to a selected one. */
  lemma {:induction false} CallsCarry<F, T>(h: seq<Conn<F>>, f: F, keys: seq<nat>, mask: set<nat>, v: T, k: nat)
    requires k < |Calls(h, f, keys, mask, v)|
    ensures var call := Calls(h, f, keys, mask, v)[k];
            call.0 == v && exists c :: c in mask && Conn(c, f, call.1) in h
  {
    var front, c := keys[..|keys| - 1], keys[|keys| - 1];
    if k < |Calls(h, f, front, mask, v)| {
      CallsCarry(h, f, front, mask, v, k);
    } else {
      FirstIsMade(h, c, f);
    }
  }

  // ----- the early exit

  lemma {:induction false} NumberReaches(mask: set<nat>, c: nat, n: nat)
    requires c in mask && c < n
    ensures NumberUpTo(mask, n) >= Pow2(c)
  {
    if c < n - 1 {
      NumberReaches(mask, c, n - 1);
    }
  }

  lemma {:induction false} Pow2Grows(a: nat, b: nat)
    requires a <= b
    ensures Pow2(a) <= Pow2(b)
  {
    if a < b {
      Pow2Grows(a, b - 1);
    }
  }

  /** Once the mask is smaller than the bit of a channel, it has no bit from there on. */
  lemma NoneBeyond(mask: set<nat>, c: nat, d: nat)
    requires NumberUpTo(mask, 32) < Pow2(c) && c <= d < 32
    ensures d !in mask
  {
    if d in mask {
      NumberReaches(mask, d, 32);
      Pow2Grows(c, d);
    }
  }

  /** The channels the early exit leaves out would not have been written. */
  lemma {:induction false} ExitSkipsNothing<F, T>(values: map<nat, T>, h: seq<Conn<F>>, f: F, keys: seq<nat>,
      mask: set<nat>, v: T, k: nat)
    requires k <= |keys| && forall j :: k <= j < |keys| ==> keys[j] !in mask
    ensures Calls(h, f, keys, mask, v) == Calls(h, f, keys[..k], mask, v)
    ensures ValuesAfter(values, h, f, keys, mask, v) == ValuesAfter(values, h, f, keys[..k], mask, v)
  {
    if k == |keys| {
      assert keys[..k] == keys;
    } else {
      var front := keys[..|keys| - 1];
      ExitSkipsNothing(values, h, f, front, mask, v, k);
      assert front[..k] == keys[..k];
    }
  }
}
