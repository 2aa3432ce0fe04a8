/** Walks over the flattened device tree (uboot/cmd/fdt.c): the level-counter printer and the
    child count/name loop, against the tree that the tags flatten. */
module FdtTree {
  import opened Machine

  const MAX_LEVEL := 32

  /** A tag of the structure block with its contents, and the tags from some offset on. */
  datatype Tag = BeginNode(name: string) | EndNode | Prop(name: string, value: seq<byte>) | Nop | EndTag

  datatype Tags = Nil | Cons(tag: Tag, tail: Tags)

  /** The contents of a node. */
  datatype Item = PropItem(name: string, value: seq<byte>) | NopItem | Sub(name: string, items: Items)

  datatype Items = Empty | More(item: Item, rest: Items)

  /** The tags of the items, followed by `rest`. */
  function Flatten(items: Items, rest: Tags): Tags {
    match items
    case Empty => rest
    case More(PropItem(n, v), more) => Cons(Prop(n, v), Flatten(more, rest))
    case More(NopItem, more) => Cons(Nop, Flatten(more, rest))
    case More(Sub(n, inner), more) => Cons(BeginNode(n), Flatten(inner, Cons(EndNode, Flatten(more, rest))))
  }

  // ---------------------------------------------------------------- printing

  /** One call of printf, with the number of tabs it starts with. */
  datatype Line =
    | OpenLine(level: int, name: string)
    | CloseLine(level: int)
    | EmptyProp(level: int, name: string)
    | PropLine(level: int, name: string, value: seq<byte>)
    | NopLine(level: int)
    | TooDeep

  function Shown(line: Line, level: int, depth: int, out: seq<Line>): seq<Line> {
    if level <= depth then out + [line] else out
  }

  /** The root is nameless and shown as "/". */
  function NodeName(name: string): string { if name == "" then "/" else name }

  function PropShown(name: string, value: seq<byte>, level: int, depth: int, out: seq<Line>): seq<Line> {
    Shown(if value == [] then EmptyProp(level, name) else PropLine(level, name, value), level, depth, out)
  }

  /** The recursive printer, at nesting level `level`, after the output `out`. */
  function PrintItems(items: Items, level: nat, depth: int, out: seq<Line>): seq<Line> {
    match items
    case Empty => out
    case More(PropItem(n, v), more) => PrintItems(more, level, depth, PropShown(n, v, level, depth, out))
    case More(NopItem, more) => PrintItems(more, level, depth, out + [NopLine(level)])
    case More(Sub(n, inner), more) => PrintItems(more, level, depth, PrintNode(n, inner, level, depth, out))
  }

  function PrintNode(name: string, items: Items, level: nat, depth: int, out: seq<Line>): seq<Line>
    decreases items
  {
    var head := Shown(OpenLine(level, NodeName(name)), level, depth, out);
    Shown(CloseLine(level), level, depth, PrintItems(items, level + 1, depth, head))
  }

  /** All nodes in the items, which are at `level`, are at a level the printer can indent. */
  predicate Fits(items: Items, level: nat) {
    match items
    case Empty => true
    case More(Sub(_, inner), more) => level + 1 < MAX_LEVEL && Fits(inner, level + 1) && Fits(more, level)
    case More(_, more) => Fits(more, level)
  }

  datatype Outcome = Outcome(rc: int, out: seq<Line>, rest: Tags)

  /** The printing loop from the tags `ts` on. */
  function Walk(ts: Tags, level: nat, depth: int, out: seq<Line>): Outcome
    requires level > 0 || (ts.Cons? && ts.tag.BeginNode?)
    decreases ts
  {
    match ts
    case Nil => Outcome(1, out, ts)
    case Cons(EndTag, _) => Outcome(1, out, ts)
    case Cons(BeginNode(n), more) =>
      var out' := Shown(OpenLine(level, NodeName(n)), level, depth, out);
      if level + 1 >= MAX_LEVEL then Outcome(1, out' + [TooDeep], ts) else Walk(more, level + 1, depth, out')
    case Cons(EndNode, more) =>
      var out' := Shown(CloseLine(level - 1), level - 1, depth, out);
      if level - 1 == 0 then Outcome(0, out', more) else Walk(more, level - 1, depth, out')
    case Cons(Prop(n, v), more) => Walk(more, level, depth, PropShown(n, v, level, depth, out))
    case Cons(Nop, more) => Walk(more, level, depth, out + [NopLine(level)])
  }

  /** `fdt_print` of the node at the head of `tags`; every line it prints is indented by at
      most 31 tabs, so the index into the tab string is valid. */
  method FdtPrint(tags: Tags, depth: int) returns (r: Outcome)
    requires tags.Cons? && tags.tag.BeginNode?
    ensures r == Walk(tags, 0, depth, [])
    ensures forall i :: 0 <= i < |r.out| && !r.out[i].TooDeep? ==> 0 <= r.out[i].level < MAX_LEVEL
  {
    var level := 0;
    var ts, out := tags, [];
    while level >= 0
      invariant 0 <= level < MAX_LEVEL && (level > 0 || ts == tags)
      invariant Walk(ts, level, depth, out) == Walk(tags, 0, depth, [])
      invariant forall i :: 0 <= i < |out| && !out[i].TooDeep? ==> 0 <= out[i].level < MAX_LEVEL
      decreases ts
    {
      if ts.Nil? {
        return Outcome(1, out, ts);
      }
      match ts.tag {
        case EndTag =>
          return Outcome(1, out, ts);
        case BeginNode(name) =>
          if level <= depth {
            out := out + [OpenLine(level, NodeName(name))];
          }
          level := level + 1;
          if level >= MAX_LEVEL {
            return Outcome(1, out + [TooDeep], ts);
          }
        case EndNode =>
          level := level - 1;
          if level <= depth {
            out := out + [CloseLine(level)];
          }
          if level == 0 {
            return Outcome(0, out, ts.tail);
          }
        case Prop(name, value) =>
          out := PropShown(name, value, level, depth, out);
        case Nop =>
          out := out + [NopLine(level)];
      }
      ts := ts.tail;
    }
  }

  /** Walking the tags of items is printing them, and goes on behind them. */
  lemma {:induction false} WalkPrintsItems(items: Items, rest: Tags, level: nat, depth: int, out: seq<Line>)
    requires level > 0 && Fits(items, level)
    ensures Walk(Flatten(items, rest), level, depth, out) ==
      Walk(rest, level, depth, PrintItems(items, level, depth, out))
    decreases items
  {
    match items
    case Empty =>
    case More(PropItem(n, v), more) =>
      WalkPrintsItems(more, rest, level, depth, PropShown(n, v, level, depth, out));
    case More(NopItem, more) =>
      WalkPrintsItems(more, rest, level, depth, out + [NopLine(level)]);
    case More(Sub(n, inner), more) =>
      var after := Flatten(more, rest);
      var head := Shown(OpenLine(level, NodeName(n)), level, depth, out);
      WalkPrintsItems(inner, Cons(EndNode, after), level + 1, depth, head);
      WalkPrintsItems(more, rest, level, depth, PrintNode(n, inner, level, depth, out));
  }

  /** A walk over items nested too deep fails. */
  lemma {:induction false} WalkTooDeep(items: Items, rest: Tags, level: nat, depth: int, out: seq<Line>)
    requires 0 < level < MAX_LEVEL && !Fits(items, level)
    ensures Walk(Flatten(items, rest), level, depth, out).rc == 1
    decreases items
  {
    match items
    case More(PropItem(n, v), more) =>
      WalkTooDeep(more, rest, level, depth, PropShown(n, v, level, depth, out));
    case More(NopItem, more) =>
      WalkTooDeep(more, rest, level, depth, out + [NopLine(level)]);
    case More(Sub(n, inner), more) =>
      if level + 1 < MAX_LEVEL {
        var after := Flatten(more, rest);
        var head := Shown(OpenLine(level, NodeName(n)), level, depth, out);
        if Fits(inner, level + 1) {
          WalkPrintsItems(inner, Cons(EndNode, after), level + 1, depth, head);
          WalkTooDeep(more, rest, level, depth, PrintNode(n, inner, level, depth, out));
        } else {
          WalkTooDeep(inner, Cons(EndNode, after), level + 1, depth, head);
        }
      }
  }

  // ---------------------------------------------------------------- the listing

  /** The lines of a tree, part by part: a reference for the printer. */
  ghost function Listing(items: Items, level: nat, depth: int): seq<Line> {
    match items
    case Empty => []
    case More(PropItem(n, v), more) =>
      (if level > depth then [] else if v == [] then [EmptyProp(level, n)] else [PropLine(level, n, v)]) +
      Listing(more, level, depth)
    case More(NopItem, more) => [NopLine(level)] + Listing(more, level, depth)
    case More(Sub(n, inner), more) => NodeListing(n, inner, level, depth) + Listing(more, level, depth)
  }

  ghost function NodeListing(name: string, items: Items, level: nat, depth: int): seq<Line>
    decreases items
  {
    if level > depth then Listing(items, level + 1, depth)
    else [OpenLine(level, if name == "" then "/" else name)] + Listing(items, level + 1, depth) + [CloseLine(level)]
  }

  lemma Grouped(a: seq<Line>, b: seq<Line>, c: seq<Line>)
    ensures a + b + c == a + (b + c)
  {
  }

  lemma Grouped4(a: seq<Line>, b: seq<Line>, c: seq<Line>, d: seq<Line>)
    ensures a + b + c + d == a + (b + c + d)
  {
  }

  /** The recursive printer adds the listing to what was printed before. */
  lemma {:induction false} PrintsListing(items: Items, level: nat, depth: int, out: seq<Line>)
    ensures PrintItems(items, level, depth, out) == out + Listing(items, level, depth)
    decreases items, 0
  {
    match items
    case Empty =>
      assert out + [] == out;
    case More(PropItem(n, v), more) =>
      var out' := PropShown(n, v, level, depth, out);
      PrintsListing(more, level, depth, out');
      var line := if level > depth then [] else if v == [] then [EmptyProp(level, n)] else [PropLine(level, n, v)];
      assert out' == out + line;
      Grouped(out, line, Listing(more, level, depth));
    case More(NopItem, more) =>
      PrintsListing(more, level, depth, out + [NopLine(level)]);
      Grouped(out, [NopLine(level)], Listing(more, level, depth));
    case More(Sub(n, inner), more) =>
      NodePrintsListing(n, inner, level, depth, out);
      PrintsListing(more, level, depth, PrintNode(n, inner, level, depth, out));
      Grouped(out, NodeListing(n, inner, level, depth), Listing(more, level, depth));
  }

  lemma {:induction false} NodePrintsListing(name: string, items: Items, level: nat, depth: int, out: seq<Line>)
    ensures PrintNode(name, items, level, depth, out) == out + NodeListing(name, items, level, depth)
    decreases items, 1
  {
    var head := Shown(OpenLine(level, NodeName(name)), level, depth, out);
    PrintsListing(items, level + 1, depth, head);
    if level <= depth {
      Grouped4(out, [OpenLine(level, NodeName(name))], Listing(items, level + 1, depth), [CloseLine(level)]);
    }
  }

  /** How many nodes deep the items are nested. */
  ghost function Depth(items: Items): nat {
    match items
    case Empty => 0
    case More(Sub(_, inner), more) => if 1 + Depth(inner) > Depth(more) then 1 + Depth(inner) else Depth(more)
    case More(_, more) => Depth(more)
  }

  lemma {:induction false} FitsIffDepth(items: Items, level: nat)
    requires level < 32
    ensures Fits(items, level) <==> level + Depth(items) < 32
    decreases items
  {
    match items
    case Empty =>
    case More(Sub(_, inner), more) =>
      if level + 1 < 32 { FitsIffDepth(inner, level + 1); }
      FitsIffDepth(more, level);
    case More(_, more) => FitsIffDepth(more, level);
  }

  /** The printer succeeds exactly on trees nested fewer than 32 deep; it then prints the listing
      of the node and stops behind the node, before any sibling. */
  lemma {:induction false} PrintIsRecursivePrint(name: string, items: Items, rest: Tags, depth: int)
    ensures
      var r := Walk(Cons(BeginNode(name), Flatten(items, Cons(EndNode, rest))), 0, depth, []);
      && (r.rc == 0 <==> 1 + Depth(items) < 32)
      && (r.rc == 0 ==> r.out == NodeListing(name, items, 0, depth) && r.rest == rest)
  {
    var head := Shown(OpenLine(0, NodeName(name)), 0, depth, []);
    FitsIffDepth(items, 1);
    if Fits(items, 1) {
      WalkPrintsItems(items, Cons(EndNode, rest), 1, depth, head);
      NodePrintsListing(name, items, 0, depth, []);
      assert [] + NodeListing(name, items, 0, depth) == NodeListing(name, items, 0, depth);
    } else {
      WalkTooDeep(items, Cons(EndNode, rest), 1, depth, head);
    }
  }

  // ---------------------------------------------------------------- what is listed

  /** How many properties of the items, which are at `level`, have this level, name and value. */
  ghost function PropsAt(items: Items, level: int, l: int, n: string, v: seq<byte>): nat {
    match items
    case Empty => 0
    case More(PropItem(m, w), more) =>
      (if level == l && m == n && w == v then 1 else 0) + PropsAt(more, level, l, n, v)
    case More(NopItem, more) => PropsAt(more, level, l, n, v)
    case More(Sub(_, inner), more) => PropsAt(inner, level + 1, l, n, v) + PropsAt(more, level, l, n, v)
  }

  /** How many nodes have this level and name, how many this level, and how many nops do. */
  ghost function NodesAt(items: Items, level: int, l: int, n: string): nat {
    match items
    case Empty => 0
    case More(Sub(m, inner), more) =>
      (if level == l && m == n then 1 else 0) + NodesAt(inner, level + 1, l, n) + NodesAt(more, level, l, n)
    case More(_, more) => NodesAt(more, level, l, n)
  }

  ghost function LevelsAt(items: Items, level: int, l: int): nat {
    match items
    case Empty => 0
    case More(Sub(_, inner), more) =>
      (if level == l then 1 else 0) + LevelsAt(inner, level + 1, l) + LevelsAt(more, level, l)
    case More(_, more) => LevelsAt(more, level, l)
  }

  ghost function NopsAt(items: Items, level: int, l: int): nat {
    match items
    case Empty => 0
    case More(NopItem, more) => (if level == l then 1 else 0) + NopsAt(more, level, l)
    case More(Sub(_, inner), more) => NopsAt(inner, level + 1, l) + NopsAt(more, level, l)
    case More(_, more) => NopsAt(more, level, l)
  }

  /** How often a line stands for something in the items. */
  ghost function Stands(line: Line, items: Items, level: int, depth: int): nat {
    match line
    case PropLine(l, n, v) => if l <= depth && v != [] then PropsAt(items, level, l, n, v) else 0
    case EmptyProp(l, n) => if l <= depth then PropsAt(items, level, l, n, []) else 0
    case OpenLine(l, n) =>
      if l > depth || n == "" then 0
      else NodesAt(items, level, l, n) + (if n == "/" then NodesAt(items, level, l, "") else 0)
    case CloseLine(l) => if l <= depth then LevelsAt(items, level, l) else 0
    case NopLine(l) => NopsAt(items, level, l)
    case TooDeep => 0
  }

  /** How often a line is in a listing. */
  ghost function Times(lines: seq<Line>, line: Line): nat {
    if lines == [] then 0 else (if lines[0] == line then 1 else 0) + Times(lines[1..], line)
  }

  lemma {:induction false} TimesConcat(a: seq<Line>, b: seq<Line>, line: Line)
    ensures Times(a + b, line) == Times(a, line) + Times(b, line)
    decreases |a|
  {
    if a == [] {
      assert a + b == b;
    } else {
      assert (a + b)[1..] == a[1..] + b;
      TimesConcat(a[1..], b, line);
    }
  }

  lemma TimesOne(a: Line, line: Line)
    ensures Times([a], line) == if a == line then 1 else 0
  {
  }

  lemma TimesCons(a: Line, b: seq<Line>, line: Line)
    ensures Times([a] + b, line) == Times(b, line) + if a == line then 1 else 0
  {
    TimesOne(a, line);
    TimesConcat([a], b, line);
  }

  /** The line of a property. */
  ghost function PropLineOf(n: string, v: seq<byte>, level: nat): Line {
    if v == [] then EmptyProp(level, n) else PropLine(level, n, v)
  }

  lemma {:induction false} PropListed(n: string, v: seq<byte>, more: Items, level: nat, depth: int, line: Line)
    ensures Times(Listing(More(PropItem(n, v), more), level, depth), line) ==
            Times(Listing(more, level, depth), line) +
            if level <= depth && line == PropLineOf(n, v, level) then 1 else 0
  {
    var rest := Listing(more, level, depth);
    if level > depth {
      assert [] + rest == rest;
    } else {
      TimesCons(PropLineOf(n, v, level), rest, line);
    }
  }

  lemma TimesWrapped(a: Line, b: seq<Line>, c: Line, line: Line)
    ensures Times([a] + b + [c], line) ==
            Times(b, line) + (if a == line then 1 else 0) + if c == line then 1 else 0
  {
    TimesCons(a, b, line);
    TimesOne(c, line);
    TimesConcat([a] + b, [c], line);
  }

  lemma {:induction false} NodeListed(n: string, inner: Items, level: nat, depth: int, line: Line)
    ensures
      Times(NodeListing(n, inner, level, depth), line) ==
      Times(Listing(inner, level + 1, depth), line) + OwnLine(n, level, depth, line)
  {
    if level <= depth {
      var open, close := OpenLine(level, if n == "" then "/" else n), CloseLine(level);
      TimesWrapped(open, Listing(inner, level + 1, depth), close, line);
    }
  }

  /** 1 for the lines of a node itself. */
  ghost function OwnLine(n: string, level: nat, depth: int, line: Line): nat {
    if level <= depth && (line == OpenLine(level, if n == "" then "/" else n) || line == CloseLine(level)) then 1 else 0
  }

  lemma {:induction false} SubListed(n: string, inner: Items, more: Items, level: nat, depth: int, line: Line)
    ensures
      Times(Listing(More(Sub(n, inner), more), level, depth), line) ==
      Times(Listing(inner, level + 1, depth), line) + Times(Listing(more, level, depth), line) +
      OwnLine(n, level, depth, line)
  {
    NodeListed(n, inner, level, depth, line);
    TimesConcat(NodeListing(n, inner, level, depth), Listing(more, level, depth), line);
  }

  lemma {:induction false} NopListed(more: Items, level: nat, depth: int, line: Line)
    ensures Times(Listing(More(NopItem, more), level, depth), line) ==
            Times(Listing(more, level, depth), line) + if line == NopLine(level) then 1 else 0
  {
    TimesCons(NopLine(level), Listing(more, level, depth), line);
  }

  lemma {:induction false} PropStands(n: string, v: seq<byte>, more: Items, level: nat, depth: int, line: Line)
    ensures Stands(line, More(PropItem(n, v), more), level, depth) ==
            Stands(line, more, level, depth) + if level <= depth && line == PropLineOf(n, v, level) then 1 else 0
  {
  }

  lemma {:induction false} NopStands(more: Items, level: nat, depth: int, line: Line)
    ensures Stands(line, More(NopItem, more), level, depth) ==
            Stands(line, more, level, depth) + if line == NopLine(level) then 1 else 0
  {
  }

  lemma {:induction false} SubStands(n: string, inner: Items, more: Items, level: nat, depth: int, line: Line)
    ensures
      Stands(line, More(Sub(n, inner), more), level, depth) ==
      Stands(line, inner, level + 1, depth) + Stands(line, more, level, depth) + OwnLine(n, level, depth, line)
  {
  }

  /** Every line is listed exactly as often as there is something for it: each property and node
      down to the depth once, with its level, name and value, and each nop once. */
  lemma {:induction false} LinesCounted(items: Items, level: nat, depth: int, line: Line)
    ensures Times(Listing(items, level, depth), line) == Stands(line, items, level, depth)
    decreases items
  {
    match items
    case Empty =>
    case More(PropItem(n, v), more) =>
      LinesCounted(more, level, depth, line);
      PropListed(n, v, more, level, depth, line);
      PropStands(n, v, more, level, depth, line);
    case More(NopItem, more) =>
      LinesCounted(more, level, depth, line);
      NopListed(more, level, depth, line);
      NopStands(more, level, depth, line);
    case More(Sub(n, inner), more) =>
      LinesCounted(inner, level + 1, depth, line);
      LinesCounted(more, level, depth, line);
      SubListed(n, inner, more, level, depth, line);
      SubStands(n, inner, more, level, depth, line);
  }

  // ---------------------------------------------------------------- children

  datatype Step = Found(name: string, tail: Tags, depth: int) | LeftTree | NotFound

  /** `fdt_next_node`: the next node from `ts` on, counting depth. */
  function NextNode(ts: Tags, depth: int): Step {
    match ts
    case Nil => NotFound
    case Cons(EndTag, _) => NotFound
    case Cons(BeginNode(n), more) => Found(n, more, depth + 1)
    case Cons(EndNode, more) => if depth - 1 < 0 then LeftTree else NextNode(more, depth - 1)
    case Cons(_, more) => NextNode(more, depth)
  }

  lemma NextNodeShorter(ts: Tags, depth: int)
    ensures NextNode(ts, depth).Found? ==> NextNode(ts, depth).tail < ts
  {
  }

  datatype Answer = Count(children: int) | Name(name: string)

  /** The loop of `fdt get name|size`: `index` is that of the last child seen, and `req` the
      index asked for, or -1 when only counting. */
  function Children(ts: Tags, depth: int, start: int, index: int, req: int): Answer
    decreases ts
  {
    NextNodeShorter(ts, depth);
    match NextNode(ts, depth)
    case Found(name, tail, d) =>
      if d <= start then Count(index + 1)
      else
        var index' := if d == start + 1 then index + 1 else index;
        if index' == req then Name(name) else Children(tail, d, start, index', req)
    case _ => Count(index + 1)
  }

  method ChildLoop(ts0: Tags, start: int, req: int) returns (r: Answer)
    ensures r == Children(ts0, start, start, -1, req)
  {
    var curIndex := -1;
    NextNodeShorter(ts0, start);
    var next := NextNode(ts0, start);
    ghost var ts, depth := ts0, start;
    while next.Found? && next.depth > start
      invariant next == NextNode(ts, depth) && curIndex >= -1
      invariant Children(ts, depth, start, curIndex, req) == Children(ts0, start, start, -1, req)
      decreases ts
    {
      NextNodeShorter(ts, depth);
      if next.depth == start + 1 {
        curIndex := curIndex + 1;
      }
      if curIndex == req {
        return Name(next.name);
      }
      ts, depth := next.tail, next.depth;
      next := NextNode(next.tail, next.depth);
    }
    r := Count(curIndex + 1);
  }

  /** Names of the direct subnodes, in order. */
  ghost function SubNames(items: Items): seq<string> {
    match items
    case Empty => []
    case More(Sub(n, _), more) => [n] + SubNames(more)
    case More(_, more) => SubNames(more)
  }

  /** Inside a child that is not the one asked for, the loop finds nothing. */
  lemma {:induction false} DescendantsIgnored(items: Items, rest: Tags, depth: int, start: int, index: int, req: int)
    requires depth > start >= 0 && index != req
    ensures Children(Flatten(items, rest), depth, start, index, req) == Children(rest, depth, start, index, req)
    decreases items
  {
    match items
    case Empty =>
    case More(Sub(n, inner), more) =>
      var after := Flatten(more, rest);
      DescendantsIgnored(inner, Cons(EndNode, after), depth + 1, start, index, req);
      DescendantsIgnored(more, rest, depth, start, index, req);
    case More(_, more) =>
      DescendantsIgnored(more, rest, depth, start, index, req);
  }

  /** The loop passes one child, or answers with its name. */
  lemma {:induction false} ChildStep(n: string, inner: Items, after: Tags, start: int, index: int, req: int)
    requires start >= 0 && index >= -1
    ensures Children(Cons(BeginNode(n), Flatten(inner, Cons(EndNode, after))), start, start, index, req) ==
            if index + 1 == req then Name(n) else Children(after, start, start, index + 1, req)
  {
    if index + 1 != req { DescendantsIgnored(inner, Cons(EndNode, after), start + 1, start, index + 1, req); }
  }

  lemma {:induction false} ChildrenOfItems(items: Items, rest: Tags, start: int, index: int, req: int)
    requires start >= 0 && index >= -1 && (req == -1 || req > index)
    ensures
      var names := SubNames(items);
      Children(Flatten(items, rest), start, start, index, req) ==
      if req != -1 && req - index - 1 < |names| then Name(names[req - index - 1])
      else Children(rest, start, start, index + |names|, req)
    decreases items
  {
    match items
    case Empty =>
    case More(Sub(n, inner), more) =>
      ChildStep(n, inner, Flatten(more, rest), start, index, req);
      if index + 1 != req { ChildrenOfItems(more, rest, start, index + 1, req); }
    case More(_, more) =>
      ChildrenOfItems(more, rest, start, index, req);
  }

  /** Behind the node's own end tag no further child is counted. */
  lemma {:induction false} NoMoreChildren(ts: Tags, depth: int, start: int, index: int, req: int)
    requires depth < start
    ensures Children(ts, depth, start, index, req) == Count(index + 1)
    decreases ts
  {
    NextNodeBelow(ts, depth);
  }

  lemma {:induction false} NextNodeBelow(ts: Tags, depth: int)
    ensures NextNode(ts, depth).Found? ==> NextNode(ts, depth).depth <= depth + 1
    decreases ts
  {
    match ts
    case Nil =>
    case Cons(EndNode, more) => NextNodeBelow(more, depth - 1);
    case Cons(BeginNode(_), _) =>
    case Cons(_, more) => NextNodeBelow(more, depth);
  }

  /** Counting the children of a node gives their number, and asking for one by index gives
      its name, or the number of children when there is no such child. */
  lemma {:induction false} ChildLoopIsSubNames(items: Items, rest: Tags, start: int, req: int)
    requires start >= 0 && req >= -1
    ensures
      var names := SubNames(items);
      Children(Flatten(items, Cons(EndNode, rest)), start, start, -1, req) ==
      if 0 <= req < |names| then Name(names[req]) else Count(|names|)
  {
    ChildrenOfItems(items, Cons(EndNode, rest), start, -1, req);
    var index := |SubNames(items)| - 1;
    if start > 0 { NoMoreChildren(rest, start - 1, start, index, req); }
  }
}
