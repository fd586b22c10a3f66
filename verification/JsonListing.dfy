/** The parameters that createParamsList finds in a printed document. */
module JsonListing {
  import opened Options
  import opened JsonStrings
  import opened JsonDoc
  import opened JsonTree
  import opened JsonParams
  import opened JsonPrint
  import opened JsonRoundTrip

  /** A parameter's dotted name and its value. */
  datatype Setting = Setting(path: seq<Byte>, content: Content)

  /** The part of a dotted name that an item adds: nothing for elements of an array. */
  function Part(name: Option<Name>): seq<Byte> {
    if name.Some? then CString(name.value.quoted.bytes) else []
  }

  /** What is listed for a value that is known under this path: every string, number and truth
      value in it, in the order they are written, under the names on the way to it with dots
      between them. */
  function Settings(v: Value, path: seq<Byte>): seq<Setting>
    decreases v, 1
  {
    if v.Container? then ItemSettings(v.items, path)
    else if v.Nothing? then []
    else [Setting(path, ContentOf(v))]
  }

  function ItemSettings(items: Items, path: seq<Byte>): seq<Setting>
    decreases items, 0
  {
    match items
    case Nil => []
    case Item(name, value, _, rest) =>
      Settings(value, path + if value.Container? then Part(name) + [0x2E] else Part(name)) + ItemSettings(rest, path)
  }

  ghost function Shown(nodes: seq<Node>, ps: seq<Param>): seq<Setting>
    requires forall i :: 0 <= i < |ps| ==> ps[i].node < |nodes|
  {
    seq(|ps|, i requires 0 <= i < |ps| => Setting(ps[i].path, Bare(nodes[ps[i].node]).content))
  }

  ghost predicate Lists(nodes: seq<Node>, ps: seq<Param>, ss: seq<Setting>) {
    (forall i :: 0 <= i < |ps| ==> ps[i].node < |nodes|) && Shown(nodes, ps) == ss
  }

  lemma ListsJoin(nodes: seq<Node>, ps: seq<Param>, qs: seq<Param>, ss: seq<Setting>, us: seq<Setting>)
    requires Lists(nodes, ps, ss) && Lists(nodes, qs, us)
    ensures Lists(nodes, ps + qs, ss + us)
  {
  }

  lemma {:induction false} DescendLists(nodes: seq<Node>, k: nat, v: Value, path: seq<Byte>)
    requires IsTree(nodes) && Depicts(nodes, k, v)
    ensures Lists(nodes, Descend(nodes, k, path), Settings(v, path))
    decreases v, 1
  {
    if v.Container? {
      FirstAbove(nodes, k);
      AlongLists(nodes, k, 0, v.items, path);
    }
  }

  /** From the i-th child of k on. */
  lemma {:induction false} AlongLists(nodes: seq<Node>, k: nat, i: nat, items: Items, path: seq<Byte>)
    requires IsTree(nodes) && k < |nodes| && i <= |Children(nodes, k)|
    requires DepictsItems(nodes, Children(nodes, k)[i..], items)
    ensures var ks := Children(nodes, k);
            var c: Option<nat> := if i < |ks| then Some(ks[i]) else None;
            (c.Some? ==> c.value < |nodes|) && Lists(nodes, DescendAlong(nodes, c, path), ItemSettings(items, path))
    decreases items, 0
  {
    var ks := Children(nodes, k);
    if items.Item? {
      SiblingChain(nodes, k, i);
      NextAbove(nodes, ks[i]);
      var below := Below(nodes, ks[i], path);
      ItemBelow(nodes, ks[i], items, path);
      assert ks[i..][1..] == ks[i + 1..];
      DescendLists(nodes, ks[i], items.value, below);
      AlongLists(nodes, k, i + 1, items.rest, path);
      ListsJoin(nodes, Descend(nodes, ks[i], below), DescendAlong(nodes, NextSibling(nodes, ks[i]), path),
                Settings(items.value, below), ItemSettings(items.rest, path));
    }
  }

  lemma PartIsName(nodes: seq<Node>, c: nat, name: Option<Name>)
    requires c < |nodes| && Bare(nodes[c]).name == NameBytes(name)
    ensures NameOf(nodes, c) == Part(name)
  {
  }

  lemma ItemBelow(nodes: seq<Node>, c: nat, items: Items, path: seq<Byte>)
    requires items.Item? && Depicts(nodes, c, items.value) && Bare(nodes[c]).name == NameBytes(items.name)
    ensures Below(nodes, c, path) ==
            path + if items.value.Container? then Part(items.name) + [0x2E] else Part(items.name)
  {
    PartIsName(nodes, c, items.name);
  }

  /** A printed document gives these parameters and no others. */
  lemma PrintedIsListed(s: seq<Byte>, v: Value)
    requires Proper(v) && v.Container? && Holds(s, 0, PrintValue(v)) && At(s, |PrintValue(v)|) == 0
    ensures Parse(s) == Done(Tokens(v, 0)) && Fold(Tokens(v, 0)).Some?
    ensures var nodes := Fold(Tokens(v, 0)).value.nodes;
            nodes != [] && IsTree(nodes) && Lists(nodes, Descend(nodes, 0, PathAt(nodes, 0)), Settings(v, []))
  {
    var ts := Tokens(v, 0);
    PrintedIsDepicted(s, v);
    ParsedIsTree(ts);
    DescendLists(Fold(ts).value.nodes, 0, v, []);
  }
}
