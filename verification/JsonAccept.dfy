/** Which texts the parser accepts, and the order of nodes in what it builds. */
module JsonAccept {
  import opened Options
  import opened JsonStrings
  import opened JsonText
  import opened JsonDoc
  import opened JsonTree

  // ----- accepted texts

  /** The text from i on consists of exactly these tokens. */
  ghost predicate Lexes(s: seq<Byte>, i: nat, ts: seq<Token>)
    decreases |ts|
  {
    if At(s, i) == 0 then ts == []
    else
      && ts != [] && TokenAt(s, i).Tok? && TokenAt(s, i).token == ts[0]
      && Lexes(s, SkipSpace(s, TokenAt(s, i).next), ts[1..])
  }

  lemma {:induction false} ParseDoneIsFold(s: seq<Byte>, i: nat, done: seq<Token>, us: seq<Token>)
    requires Fold(done).Some? && ParseFrom(s, i, done) == Done(us)
    ensures Fold(us).Some? && Fold(us).value.top.None?
    decreases |s| - i
  {
    if At(s, i) != 0 {
      ParseToken(s, i, done, Fold(done).value);
      ParseDoneIsFold(s, SkipSpace(s, TokenAt(s, i).next), done + [TokenAt(s, i).token], us);
    }
  }

  /** What is accepted has been lexed. */
  lemma {:induction false} ParseSound(s: seq<Byte>, i: nat, done: seq<Token>, us: seq<Token>) returns (rest: seq<Token>)
    requires Fold(done).Some? && ParseFrom(s, i, done) == Done(us)
    ensures us == done + rest && Lexes(s, i, rest)
    decreases |s| - i
  {
    if At(s, i) == 0 {
      rest := [];
    } else {
      ParseToken(s, i, done, Fold(done).value);
      var t := TokenAt(s, i).token;
      var more := ParseSound(s, SkipSpace(s, TokenAt(s, i).next), done + [t], us);
      rest := [t] + more;
      Assoc(done, [t], more);
      LexesMore(s, i, more);
    }
  }

  lemma Assoc<T>(a: seq<T>, b: seq<T>, c: seq<T>)
    ensures a + b + c == a + (b + c)
  {
  }

  lemma LexesMore(s: seq<Byte>, i: nat, more: seq<Token>)
    requires At(s, i) != 0 && TokenAt(s, i).Tok? && Lexes(s, SkipSpace(s, TokenAt(s, i).next), more)
    ensures Lexes(s, i, [TokenAt(s, i).token] + more)
  {
    assert ([TokenAt(s, i).token] + more)[1..] == more;
  }

  lemma FoldOfPrefix(a: seq<Token>, b: seq<Token>)
    requires Fold(a + b).Some?
    ensures Fold(a).Some?
  {
    FoldPrefix(a + b, |a|);
    assert (a + b)[..|a|] == a;
  }

  /** A document that can be lexed is accepted. */
  lemma {:induction false} ParseComplete(s: seq<Byte>, i: nat, done: seq<Token>, rest: seq<Token>)
    requires Lexes(s, i, rest) && Fold(done).Some? && Fold(done + rest).Some? && Fold(done + rest).value.top.None?
    ensures ParseFrom(s, i, done) == Done(done + rest)
    decreases |rest|
  {
    if rest == [] {
      assert done + [] == done;
    } else {
      var more := done + [rest[0]];
      ParseToken(s, i, done, Fold(done).value);
      Assoc(done, [rest[0]], rest[1..]);
      assert [rest[0]] + rest[1..] == rest;
      FoldOfPrefix(more, rest[1..]);
      ParseComplete(s, SkipSpace(s, TokenAt(s, i).next), more, rest[1..]);
    }
  }

  /** A text is parsed successfully exactly when it is empty or lexes to one balanced,
      kind-matched outermost pair of brackets (with colons only directly in objects). */
  lemma AcceptedTexts(s: seq<Byte>, ts: seq<Token>)
    ensures Parse(s) == Done(ts) <==> Lexes(s, 0, ts) && (ts == [] || Group(ts))
  {
    if ts != [] {
      AcceptedIsGroup(ts);
    }
    assert [] + ts == ts;
    if Parse(s) == Done(ts) {
      ParseDoneIsFold(s, 0, [], ts);
      var rest := ParseSound(s, 0, [], ts);
    }
    if Lexes(s, 0, ts) && (ts == [] || Group(ts)) {
      ParseComplete(s, 0, [], ts);
    }
  }

  // ----- source order is document order

  /** If node i stands between node j and j's parent, it is inside that parent. */
  ghost predicate Between(nodes: seq<Node>, i: nat, j: nat) {
    i < j < |nodes| && nodes[j].parent.Some? && nodes[j].parent.value < i
    ==> nodes[i].parent.Some? && nodes[i].parent.value >= nodes[j].parent.value
  }

  ghost predicate PreOrder(nodes: seq<Node>) {
    forall i, j :: 0 <= i < j < |nodes| ==> Between(nodes, i, j)
  }

  ghost predicate Inside(nodes: seq<Node>, i: nat, t: nat) {
    i < |nodes| && nodes[i].parent.Some? && nodes[i].parent.value >= t
  }

  /** Everything behind the open container is inside it. */
  ghost predicate InsideTop(d: Doc) {
    d.top.Some? ==> forall i :: d.top.value < i < |d.nodes| ==> Inside(d.nodes, i, d.top.value)
  }

  lemma AppendPreOrder(d: Doc, kind: Kind)
    requires Valid(d) && PreOrder(d.nodes) && InsideTop(d) && (d.top.None? ==> d.nodes == [])
    ensures PreOrder(Append(d, kind).nodes) && InsideTop(Append(d, kind))
    ensures InsideTop(Append(d, kind).(top := Some(|d.nodes|)))
  {
    var e := Append(d, kind);
    forall i, j | 0 <= i < j < |e.nodes| ensures Between(e.nodes, i, j) {
      if j < |d.nodes| {
        assert Between(d.nodes, i, j);
      } else if d.top.Some? && d.top.value < i {
        assert Inside(d.nodes, i, d.top.value);
      }
    }
    if d.top.Some? {
      forall i | d.top.value < i < |e.nodes| ensures Inside(e.nodes, i, d.top.value) {
        assert i < |d.nodes| ==> Inside(d.nodes, i, d.top.value);
      }
    }
  }

  /** Closing: everything behind the parent of the container is inside the parent. */
  lemma ClosePreOrder(d: Doc)
    requires Valid(d) && PreOrder(d.nodes) && InsideTop(d) && d.top.Some?
    ensures InsideTop(d.(top := d.nodes[d.top.value].parent))
  {
    var t := d.top.value;
    if d.nodes[t].parent.Some? {
      var p := d.nodes[t].parent.value;
      forall i | p < i < |d.nodes| ensures Inside(d.nodes, i, p) {
        if i > t {
          assert Inside(d.nodes, i, t);
        } else if i < t {
          assert Between(d.nodes, i, t);
        }
      }
    }
  }

  lemma StepPreOrder(d: Doc, t: Token)
    requires Valid(d) && PreOrder(d.nodes) && InsideTop(d) && Step(d, t).Some?
    ensures PreOrder(Step(d, t).value.nodes) && InsideTop(Step(d, t).value)
  {
    var e := Step(d, t).value;
    if t.Close? {
      ClosePreOrder(d);
    } else if e.nodes != d.nodes {
      AppendPreOrder(d, e.nodes[|d.nodes|].kind);
    }
  }

  lemma {:induction false} FoldPreOrder(ts: seq<Token>)
    requires Fold(ts).Some?
    ensures PreOrder(Fold(ts).value.nodes) && InsideTop(Fold(ts).value)
  {
    if ts != [] {
      FoldPreOrder(ts[..|ts| - 1]);
      StepPreOrder(Fold(ts[..|ts| - 1]).value, ts[|ts| - 1]);
    }
  }
}
