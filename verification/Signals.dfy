/** The signal classes of core/sr_signal: outputs, infields and selectors. */
module Signals {

  /** An input that keeps one value per channel and knows which output feeds which channel. */
  class Infield<T> {
    const hasCallback: bool
    /** m_channel and m_value */
    var channel: map<SignalOut<T>, nat>
    var values: map<nat, T>
    /** The callbacks made so far: value and channel. */
    var calls: seq<(T, nat)>

    ghost predicate Valid()
      reads this
    {
      forall o :: o in channel ==> channel[o] in values
    }

    constructor (hasCallback: bool)
      ensures Valid() && this.hasCallback == hasCallback && channel == map[] && values == map[] && calls == []
    {
      this.hasCallback, channel, values, calls := hasCallback, map[], map[], [];
    }

    /** `bind`: map::insert keeps what is there. */
    method Bind(sender: SignalOut<T>, ch: nat, zero: T)
      requires Valid()
      modifies this`channel, this`values
      ensures Valid()
      ensures channel == if sender in old(channel) then old(channel) else old(channel)[sender := ch]
      ensures values == if ch in old(values) then old(values) else old(values)[ch := zero]
    {
      if sender !in channel {
        channel := channel[sender := ch];
      }
      if ch !in values {
        values := values[ch := zero];
      }
    }

    /** `update`: takes the sender's value over to its channel. */
    method Update(sender: SignalOut<T>)
      modifies this`values, this`calls
      requires Valid()
      ensures Valid()
      ensures values == Received(channel, old(values), sender, sender.value)
      ensures calls == old(calls) + Callbacks(hasCallback, channel, sender, sender.value)
    {
      if sender !in channel {
        return;
      }
      var ch := channel[sender];
      if ch !in values {
        return;
      }
      values := values[ch := sender.value];
      if hasCallback {
        calls := calls + [(values[ch], ch)];
      }
    }

    /** `read` of a channel; zero stands for TYPE(). */
    method Read(ch: nat, zero: T) returns (v: T)
      ensures v == if ch in values then values[ch] else zero
    {
      v := if ch in values then values[ch] else zero;
    }
  }

  ghost function Received<T>(channel: map<SignalOut<T>, nat>, values: map<nat, T>, sender: SignalOut<T>,
                             v: T): map<nat, T> {
    if sender in channel then values[channel[sender] := v] else values
  }

  ghost function Callbacks<T>(has: bool, channel: map<SignalOut<T>, nat>, sender: SignalOut<T>, v: T): seq<(T, nat)> {
    if has && sender in channel then [(v, channel[sender])] else []
  }

  ghost predicate NoDuplicates<X>(s: seq<X>) {
    forall i, j :: 0 <= i < j < |s| ==> s[i] != s[j]
  }

  /** An output and its receivers. */
  class SignalOut<T> {
    var value: T
    var receivers: seq<Infield<T>>

    ghost predicate Valid()
      reads this
    {
      NoDuplicates(receivers)
    }

    constructor (zero: T)
      ensures Valid() && value == zero && receivers == []
    {
      value, receivers := zero, [];
    }

    /** `bind`: a receiver is added only once. */
    method Bind(receiver: Infield<T>)
      requires Valid()
      modifies this`receivers
      ensures Valid()
      ensures receivers == if receiver in old(receivers) then old(receivers) else old(receivers) + [receiver]
    {
      for i := 0 to |receivers|
        invariant receivers == old(receivers) && receiver !in receivers[..i]
      {
        if receivers[i] == receiver {
          return;
        }
      }
      receivers := receivers + [receiver];
    }

    /** `write`: stores the value and updates every receiver once. */
    method Write(v: T)
      requires Valid() && forall f :: f in receivers ==> f.Valid()
      modifies this`value, receivers
      ensures Valid() && value == v
      ensures forall f :: f in receivers ==>
                && f.Valid() && f.channel == old(f.channel)
                && f.values == Received(f.channel, old(f.values), this, v)
                && f.calls == old(f.calls) + Callbacks(f.hasCallback, f.channel, this, v)
    {
      value := v;
      for i := 0 to |receivers|
        invariant receivers == old(receivers) && value == v
        invariant forall k :: 0 <= k < |receivers| ==> receivers[k].Valid() && receivers[k].channel == old(receivers[k].channel)
        invariant forall k :: 0 <= k < i ==>
                    && receivers[k].values == Received(receivers[k].channel, old(receivers[k].values), this, v)
                    && receivers[k].calls == old(receivers[k].calls)
                       + Callbacks(receivers[k].hasCallback, receivers[k].channel, this, v)
        invariant forall k :: i <= k < |receivers| ==>
                    receivers[k].values == old(receivers[k].values) && receivers[k].calls == old(receivers[k].calls)
      {
        receivers[i].Update(this);
      }
    }
  }
}
