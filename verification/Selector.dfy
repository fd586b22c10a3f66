/** signal_selector: an output with up to 32 channels, written through a bit mask. */
module Selectors {
  import opened Options
  import opened Words
  import opened Routing
  import opened Signals

  /** The keys of a sorted map after inserting c. */
  function AddKey(keys: seq<nat>, c: nat): seq<nat> {
    if keys == [] || keys[|keys| - 1] < c then keys + [c]
    else if keys[|keys| - 1] == c then keys
    else AddKey(keys[..|keys| - 1], c) + [keys[|keys| - 1]]
  }

  lemma {:induction false} AddKeyAscends(keys: seq<nat>, c: nat)
    requires Ascending(keys)
    ensures Ascending(AddKey(keys, c))
    ensures forall k :: k in AddKey(keys, c) <==> k in keys || k == c
  {
    if keys != [] && keys[|keys| - 1] > c {
      var front, last := keys[..|keys| - 1], keys[|keys| - 1];
      assert keys == front + [last];
      AddKeyAscends(front, c);
      forall i | 0 <= i < |AddKey(front, c)| ensures AddKey(front, c)[i] < last {
        assert AddKey(front, c)[i] in AddKey(front, c);
      }
    }
  }

  lemma FirstOfMore<F>(h: seq<Conn<F>>, n: Conn<F>, c: nat, f: F)
    ensures First(h + [n], c, f) ==
            if First(h, c, f).None? && n.out == c && n.field == f then Some(n.input) else First(h, c, f)
  {
    assert (h + [n])[..|h|] == h;
  }

  ghost function ChannelOf<T>(channel: map<SignalOut<T>, nat>, o: SignalOut<T>): Option<nat> {
    if o in channel then Some(channel[o]) else None
  }

  ghost predicate WiredBy<T>(o: SignalOut<T>, f: Infield<T>, first: Option<nat>)
    reads o, f
  {
    (f in o.receivers <==> first.Some?) && ChannelOf(f.channel, o) == first
  }

  /** The keys are those of the map, in ascending order; outputs are distinct, and every
      connection is between known ends. */
  ghost predicate MapFor<T>(keys: seq<nat>, outs: map<nat, SignalOut<T>>, fields: set<Infield<T>>,
                            history: seq<Conn<Infield<T>>>) {
    && Ascending(keys)
    && (forall c :: c in keys <==> c in outs)
    && (forall c :: c in outs ==> c < 32)
    && (forall c, d :: c in outs && d in outs && c != d ==> outs[c] != outs[d])
    && forall k :: 0 <= k < |history| ==> history[k].out in outs && history[k].field in fields
  }

  lemma MapMore<T>(keys: seq<nat>, outs: map<nat, SignalOut<T>>, fields: set<Infield<T>>,
                   history: seq<Conn<Infield<T>>>, ch: nat, item: SignalOut<T>)
    requires MapFor(keys, outs, fields, history) && ch < 32 && ch !in outs && item !in outs.Values
    ensures MapFor(AddKey(keys, ch), outs[ch := item], fields, history)
  {
    AddKeyAscends(keys, ch);
    forall c | c in outs ensures outs[c] != item {
      assert outs[c] in outs.Values;
    }
  }

  ghost predicate OutFits<T>(o: SignalOut<T>, fields: set<Infield<T>>)
    reads o
  {
    o.Valid() && forall f :: f in o.receivers ==> f in fields
  }

  class Selector<T> {
    /** The map outs with its keys in the order of its iterator. */
    var keys: seq<nat>
    var outs: map<nat, SignalOut<T>>
    ghost var fields: set<Infield<T>>
    ghost var history: seq<Conn<Infield<T>>>

    ghost predicate MapOk()
      reads this
    {
      MapFor(keys, outs, fields, history)
    }

    /** Receiver list and channel table agree with the connections made. */
    ghost predicate Wired(c: nat, f: Infield<T>)
      requires c in outs
      reads this, outs[c], f
    {
      WiredBy(outs[c], f, First(history, c, f))
    }

    ghost predicate OutOk(c: nat)
      requires c in outs
      reads this, outs[c]
    {
      OutFits(outs[c], fields)
    }

    ghost predicate Valid()
      reads this, outs.Values, fields
    {
      && MapOk()
      && (forall c {:trigger OutOk(c)} :: c in outs ==> OutOk(c))
      && (forall f :: f in fields ==> f.Valid())
      && forall c, f {:trigger Wired(c, f)} :: c in outs && f in fields ==> Wired(c, f)
    }

    constructor ()
      ensures Valid() && outs == map[] && history == [] && fields == {}
    {
      keys, outs, fields, history := [], map[], {}, [];
    }

    /** What the write to output channel c does to a field. */
    ghost predicate Took(f: Infield<T>, values: map<nat, T>, calls: seq<(T, nat)>, c: nat, v: T)
      reads this, f
    {
      match First(history, c, f)
      case None => f.values == values && f.calls == calls
      case Some(i) => f.values == values[i := v] && f.calls == calls + (if f.hasCallback then [(v, i)] else [])
    }

    method WriteChannel(c: nat, v: T)
      requires Valid() && c in outs
      modifies outs[c], fields
      ensures Valid()
      ensures outs[c].value == v
      ensures forall f :: f in fields ==> Took(f, old(f.values), old(f.calls), c, v)
    {
      assert OutOk(c);
      outs[c].Write(v);
      forall f | f in fields
        ensures Took(f, old(f.values), old(f.calls), c, v) && f.Valid() && f.channel == old(f.channel)
      {
        assert old(Wired(c, f));
      }
      forall d | d in outs ensures OutOk(d) {
        assert old(OutOk(d));
      }
      forall d, f | d in outs && f in fields ensures Wired(d, f) {
        assert old(Wired(d, f));
      }
    }

    /** The field has received what the first n keys send with the mask. */
    ghost predicate Delivered(f: Infield<T>, values: map<nat, T>, calls: seq<(T, nat)>, n: nat, mask: set<nat>, v: T)
      requires n <= |keys|
      reads this, f
    {
      && f.values == ValuesAfter(values, history, f, keys[..n], mask, v)
      && f.calls == calls + (if f.hasCallback then Calls(history, f, keys[..n], mask, v) else [])
    }

    lemma DeliverMore(f: Infield<T>, values0: map<nat, T>, calls0: seq<(T, nat)>, values: map<nat, T>,
                      calls: seq<(T, nat)>,
                      k: nat, mask: set<nat>, v: T)
      requires k < |keys|
      requires values == ValuesAfter(values0, history, f, keys[..k], mask, v)
      requires calls == calls0 + (if f.hasCallback then Calls(history, f, keys[..k], mask, v) else [])
      requires if keys[k] in mask then Took(f, values, calls, keys[k], v) else f.values == values && f.calls == calls
      ensures Delivered(f, values0, calls0, k + 1, mask, v)
    {
      var now := keys[..k + 1];
      assert now[..k] == keys[..k] && now[|now| - 1] == keys[k];
      var before, c := Calls(history, f, keys[..k], mask, v), keys[k];
      var more := if Chosen(history, f, mask, c) then [(v, First(history, c, f).value)] else [];
      assert calls0 + before + more == calls0 + (before + more);
    }

    /** Output channel c holds what the first n keys leave there. */
    ghost predicate Holds(c: nat, was: map<nat, T>, n: nat, mask: set<nat>, v: T)
      requires c in outs && c in was && n <= |keys|
      reads this, outs[c]
    {
      outs[c].value == if c in mask && c in keys[..n] then v else was[c]
    }

    ghost predicate AllDone(start: map<Infield<T>, (map<nat, T>, seq<(T, nat)>)>, was: map<nat, T>, n: nat,
                            mask: set<nat>, v: T)
      reads this, outs.Values, fields
    {
      && n <= |keys| && fields <= start.Keys && outs.Keys <= was.Keys
      && (forall f {:trigger Delivered(f, start[f].0, start[f].1, n, mask, v)} :: f in fields ==>
            Delivered(f, start[f].0, start[f].1, n, mask, v))
      && forall c {:trigger Holds(c, was, n, mask, v)} :: c in outs ==> Holds(c, was, n, mask, v)
    }

    /** The test in the loop of `write`. */
    method WriteIfSelected(c: nat, mask: set<nat>, v: T)
      requires Valid() && c in outs
      modifies outs.Values, fields
      ensures Valid()
      ensures forall f :: f in fields ==>
                if c in mask then Took(f, old(f.values), old(f.calls), c, v)
                else f.values == old(f.values) && f.calls == old(f.calls)
      ensures forall d :: d in outs ==> outs[d].value == if d == c && c in mask then v else old(outs[d].value)
    {
      if c in mask {
        WriteChannel(c, v);
      }
    }

    /** One turn of the loop in `write`. */
    method WriteKey(k: nat, mask: set<nat>, v: T, ghost start: map<Infield<T>, (map<nat, T>, seq<(T, nat)>)>,
                    ghost was: map<nat, T>)
      requires Valid() && k < |keys| && AllDone(start, was, k, mask, v)
      modifies outs.Values, fields
      ensures Valid() && AllDone(start, was, k + 1, mask, v)
    {
      assert keys[k] in keys;
      WriteIfSelected(keys[k], mask, v);
      forall f | f in fields ensures Delivered(f, start[f].0, start[f].1, k + 1, mask, v) {
        assert old(Delivered(f, start[f].0, start[f].1, k, mask, v));
        DeliverMore(f, start[f].0, start[f].1, old(f.values), old(f.calls), k, mask, v);
      }
      forall c | c in outs ensures Holds(c, was, k + 1, mask, v) {
        assert old(Holds(c, was, k, mask, v));
        assert keys[..k + 1] == keys[..k] + [keys[k]];
      }
    }

    /** The loop of `write`. It stops at the first channel whose bit is greater than the mask. */
    method WriteLoop(mask: set<nat>, v: T, ghost start: map<Infield<T>, (map<nat, T>, seq<(T, nat)>)>,
                     ghost was: map<nat, T>)
      returns (k: nat)
      requires Valid() && AllDone(start, was, 0, mask, v)
      modifies outs.Values, fields
      ensures Valid() && AllDone(start, was, k, mask, v)
      ensures k < |keys| ==> NumberUpTo(mask, 32) < Pow2(keys[k])
    {
      k := 0;
      while k < |keys| && NumberUpTo(mask, 32) >= Pow2(keys[k])
        invariant Valid() && AllDone(start, was, k, mask, v)
      {
        WriteKey(k, mask, v, start, was);
        k := k + 1;
      }
    }

    lemma RestNotInMask(k: nat, mask: set<nat>)
      requires MapOk() && k <= |keys| && (k < |keys| ==> NumberUpTo(mask, 32) < Pow2(keys[k]))
      ensures forall j :: k <= j < |keys| ==> keys[j] !in mask
    {
      forall j | k <= j < |keys| ensures keys[j] !in mask {
        assert keys[j] in keys;
        NoneBeyond(mask, keys[k], keys[j]);
      }
    }

    /** `write`: the value goes to all channels in the mask. */
    method Write(mask: set<nat>, v: T)
      requires Valid()
      modifies outs.Values, fields
      ensures Valid()
      ensures forall f :: f in fields ==> Delivered(f, old(f.values), old(f.calls), |keys|, mask, v)
      ensures forall c :: c in outs ==> outs[c].value == if c in mask then v else old(outs[c].value)
    {
      ghost var start, was := map f | f in fields :: (f.values, f.calls), map c | c in outs :: outs[c].value;
      var k := WriteLoop(mask, v, start, was);
      RestNotInMask(k, mask);
      forall f | f in fields ensures Delivered(f, start[f].0, start[f].1, |keys|, mask, v) {
        assert Delivered(f, start[f].0, start[f].1, k, mask, v);
        ExitSkipsNothing(start[f].0, history, f, keys, mask, v, k);
        assert keys[..|keys|] == keys;
      }
      forall c | c in outs ensures outs[c].value == if c in mask then v else was[c] {
        assert Holds(c, was, k, mask, v);
        var j :| 0 <= j < |keys| && keys[j] == c;
      }
    }

    /** The callbacks of a write bring the value on connected channels. */
    lemma CallsMean(f: Infield<T>, calls: seq<(T, nat)>, mask: set<nat>, v: T)
      requires f.calls == calls + (if f.hasCallback then Calls(history, f, keys, mask, v) else [])
      ensures f.calls[..|calls|] == calls
      ensures forall k :: |calls| <= k < |f.calls| ==>
                f.calls[k].0 == v && exists c :: c in mask && Conn(c, f, f.calls[k].1) in history
    {
      forall k | |calls| <= k < |f.calls|
        ensures f.calls[k].0 == v && exists c :: c in mask && Conn(c, f, f.calls[k].1) in history
      {
        var made := Calls(history, f, keys, mask, v);
        assert f.calls[k] == made[k - |calls|];
        CallsCarry(history, f, keys, mask, v, k - |calls|);
        var c :| c in mask && Conn(c, f, made[k - |calls|].1) in history;
        assert Conn(c, f, f.calls[k].1) in history;
      }
    }

    /** After distinct connections a write has changed exactly the channels of the field that
        are connected to a channel in the mask, and made one callback for each of those. */
    lemma DeliveredMeans(f: Infield<T>, values: map<nat, T>, calls: seq<(T, nat)>, mask: set<nat>, v: T, i: nat)
      requires MapOk() && DistinctConnections(history) && Delivered(f, values, calls, |keys|, mask, v) && i in values
      ensures i in f.values
      ensures f.values[i] == if exists c :: c in mask && Conn(c, f, i) in history then v else values[i]
      ensures |f.calls| == |calls| + (if f.hasCallback then |AllChosen(history, f, keys, mask)| else 0)
      ensures f.calls[..|calls|] == calls
      ensures forall k :: |calls| <= k < |f.calls| ==>
                f.calls[k].0 == v && exists c :: c in mask && Conn(c, f, f.calls[k].1) in history
    {
      assert keys[..|keys|] == keys;
      CallsMean(f, calls, mask, v);
      WriteReaches(values, history, f, keys, mask, v, i);
      OneCallEach(history, f, keys, mask, v);
    }

    /** Every channel of the field that an output feeds has a value. */
    ghost predicate RoutesKnown(f: Infield<T>, values: map<nat, T>)
      reads this
    {
      forall c :: c in keys && First(history, c, f).Some? ==> First(history, c, f).value in values
    }

    lemma RoutesAreKnown(f: Infield<T>)
      requires Valid() && f in fields
      ensures RoutesKnown(f, f.values)
    {
      forall c | c in keys && First(history, c, f).Some? ensures First(history, c, f).value in f.values {
        assert Wired(c, f);
      }
    }

    /** What reading a channel of the field gives after a write. */
    lemma ReadAfterWrite(f: Infield<T>, values: map<nat, T>, calls: seq<(T, nat)>, mask: set<nat>, v: T, i: nat, zero: T)
      requires MapOk() && DistinctConnections(history) && Delivered(f, values, calls, |keys|, mask, v)
      requires RoutesKnown(f, values)
      ensures (if i in f.values then f.values[i] else zero) ==
              if exists c :: c in mask && Conn(c, f, i) in history then v
              else if i in values then values[i] else zero
    {
      assert keys[..|keys|] == keys;
      ValuesKeep(values, history, f, keys, mask, v);
      assert i in f.values <==> i in values;
      if i in values {
        DeliveredMeans(f, values, calls, mask, v, i);
      } else {
        forall c ensures Conn(c, f, i) !in history {
          FirstIsTheConnection(history, c, f, i);
        }
      }
    }

    /** `read` of a channel; zero stands for TYPE(). */
    method Read(channel: nat, zero: T) returns (v: T)
      requires Valid()
      ensures v == if channel in outs then outs[channel].value else zero
    {
      v := if channel in outs then outs[channel].value else zero;
    }

    /** The output of a channel, made on its first use. */
    method GetOut(ch: nat, zero: T) returns (item: SignalOut<T>)
      requires Valid() && ch < 32
      modifies this`keys, this`outs
      ensures Valid() && ch in outs && item == outs[ch]
      ensures if ch in old(outs) then outs == old(outs)
              else fresh(item) && outs == old(outs)[ch := item] && item.receivers == [] && item.value == zero
    {
      if ch in outs {
        item := outs[ch];
      } else {
        item := NewOut(ch, zero);
      }
    }

    method NewOut(ch: nat, zero: T) returns (item: SignalOut<T>)
      requires Valid() && ch < 32 && ch !in outs
      modifies this`keys, this`outs
      ensures Valid() && fresh(item)
      ensures outs == old(outs)[ch := item] && item.receivers == [] && item.value == zero
    {
      item := new SignalOut(zero);
      MapMore(keys, outs, fields, history, ch, item);
      ghost var more := outs[ch := item];
      forall c | c in more ensures OutFits(more[c], fields) {
        assert c != ch ==> OutOk(c);
      }
      forall c, f | c in more && f in fields ensures WiredBy(more[c], f, First(history, c, f)) {
        if c == ch {
          FirstIsMade(history, c, f);
        } else {
          assert Wired(c, f);
        }
      }
      Enter(ch, item);
    }

    /** Inserts the pair into the map. */
    method Enter(ch: nat, item: SignalOut<T>)
      requires MapFor(AddKey(keys, ch), outs[ch := item], fields, history) && forall f :: f in fields ==> f.Valid()
      requires var more := outs[ch := item];
               && (forall c {:trigger OutFits(more[c], fields)} :: c in more ==> OutFits(more[c], fields))
               && forall c, f {:trigger WiredBy(more[c], f, First(history, c, f))} :: c in more && f in fields ==>
                    WiredBy(more[c], f, First(history, c, f))
      modifies this`keys, this`outs
      ensures Valid() && outs == old(outs)[ch := item]
    {
      keys, outs := AddKey(keys, ch), outs[ch := item];
      forall c | c in outs ensures OutOk(c) {
      }
      forall c, f | c in outs && f in fields ensures Wired(c, f) {
      }
    }

    /** `connect(selector, field, ch, input)`: the selector binds the field to its channel, and
        the field binds that output to its own. A field connected for the first time does not
        know any output of the selector yet. */
    method Connect(f: Infield<T>, ch: nat, input: nat, zero: T)
      requires Valid() && f.Valid() && ch < 32
      requires f !in fields ==> forall c :: c in outs ==> outs[c] !in f.channel
      modifies this, outs.Values, f`channel, f`values
      ensures Valid() && history == old(history) + [Conn(ch, f, input)] && fields == old(fields) + {f}
      ensures input in f.values && f.calls == old(f.calls)
      ensures forall i :: i in old(f.values) ==> i in f.values && f.values[i] == old(f.values[i])
    {
      var item := GetOut(ch, zero);
      Wire(f, ch, input, zero, item);
    }

    method Wire(f: Infield<T>, ch: nat, input: nat, zero: T, item: SignalOut<T>)
      requires Valid() && f.Valid() && ch in outs && item == outs[ch]
      requires f !in fields ==> forall c :: c in outs ==> outs[c] !in f.channel
      modifies this`fields, this`history, item`receivers, f`channel, f`values
      ensures Valid() && history == old(history) + [Conn(ch, f, input)] && fields == old(fields) + {f}
      ensures input in f.values
      ensures forall i :: i in old(f.values) ==> i in f.values && f.values[i] == old(f.values[i])
    {
      forall c | c in outs ensures WiredIf(c, f) {
        StrangerWired(c, f);
      }
      assert OutOk(ch);
      BindBoth(item, f, input, zero);
      ghost var h := history + [Conn(ch, f, input)];
      forall c | c in outs ensures outs[c].Valid() && forall g :: g in outs[c].receivers ==> g in fields + {f} {
        assert old(OutOk(c));
      }
      forall c, g | c in outs && g in fields + {f} ensures WiredBy(outs[c], g, First(h, c, g)) {
        if g == f {
          assert old(WiredIf(c, f));
        } else {
          assert old(Wired(c, g));
        }
        FirstOfMore(history, Conn(ch, f, input), c, g);
      }
      Record(fields + {f}, h);
    }

    ghost method Record(fs: set<Infield<T>>, h: seq<Conn<Infield<T>>>)
      requires MapOk() && forall f :: f in fs ==> f.Valid()
      requires forall k :: 0 <= k < |h| ==> h[k].out in outs && h[k].field in fs
      requires forall c :: c in outs ==> outs[c].Valid() && forall f :: f in outs[c].receivers ==> f in fs
      requires forall c, f :: c in outs && f in fs ==> WiredBy(outs[c], f, First(h, c, f))
      modifies this`fields, this`history
      ensures Valid() && fields == fs && history == h
    {
      fields, history := fs, h;
    }

    static method BindBoth(item: SignalOut<T>, f: Infield<T>, input: nat, zero: T)
      requires item.Valid() && f.Valid()
      modifies item`receivers, f`channel, f`values
      ensures item.Valid() && f.Valid()
      ensures item.receivers == if f in old(item.receivers) then old(item.receivers) else old(item.receivers) + [f]
      ensures f.channel == if item in old(f.channel) then old(f.channel) else old(f.channel)[item := input]
      ensures f.values == if input in old(f.values) then old(f.values) else old(f.values)[input := zero]
    {
      item.Bind(f);
      f.Bind(item, input, zero);
    }

    /** Wired, for any field. */
    ghost predicate WiredIf(c: nat, f: Infield<T>)
      reads this, outs.Values, f
    {
      c in outs ==> Wired(c, f)
    }

    /** A field never connected is wired to nothing. */
    lemma StrangerWired(c: nat, f: Infield<T>)
      requires Valid() && (f !in fields && c in outs ==> outs[c] !in f.channel)
      ensures WiredIf(c, f)
    {
      if c in outs {
        assert OutOk(c);
        FirstIsMade(history, c, f);
        if f in fields {
          assert Wired(c, f);
        }
      }
    }
  }

  /** Reading one output channel and one infield channel before and after a write: the first
      has the value exactly when it is in the mask, the second exactly when it is connected to
      a channel in the mask; otherwise both read as before. */
  method ReadWriteRead<T>(s: Selector<T>, f: Infield<T>, mask: set<nat>, v: T, ch: nat, input: nat, zero: T)
    returns (out0: T, in0: T, out1: T, in1: T)
    requires s.Valid() && f in s.fields && DistinctConnections(s.history)
    modifies s.outs.Values, s.fields
    ensures s.Valid()
    ensures out1 == if ch in mask && ch in s.outs then v else out0
    ensures in1 == if exists c :: c in mask && Conn(c, f, input) in s.history then v else in0
  {
    out0 := s.Read(ch, zero);
    in0 := f.Read(input, zero);
    s.RoutesAreKnown(f);
    ghost var values, calls := f.values, f.calls;
    s.Write(mask, v);
    s.ReadAfterWrite(f, values, calls, mask, v, input, zero);
    out1 := s.Read(ch, zero);
    in1 := f.Read(input, zero);
  }
}
