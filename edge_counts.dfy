/** `get_edge_counts` of src/lib.rs: folds the item stream of one iterator into
    a table from root-to-self tag paths to the number of times each occurs,
    with an optional cut-off `n_max` on the item numbers examined. */
module EdgeCounts {
  import opened Wrappers
  import opened Events

  /** A sequence of tag names from the outermost open element to the current one. */
  type Path = seq<string>

  type Counter = map<Path, int>

  /** The loop's state: `tag_stack` and `counter`. */
  datatype Tally = Tally(stack: seq<string>, counter: Counter)

  const Init := Tally([], map[])

  /** One pass of the loop's `match`: a start pushes the name and then counts
      the whole stack (from 0 when the path is new); an end pops, and popping
      an empty stack does nothing; a text changes nothing; anything else (an
      "empty" item) panics. */
  function Apply(t: Tally, item: Item): (r: Result<Tally>)
    ensures r.Panicked? <==> item.kind == Empty
  {
    match item.kind
    case Start =>
      var stack := t.stack + [item.value];
      var count := if stack in t.counter then t.counter[stack] else 0;
      Ok(Tally(stack, t.counter[stack := count + 1]))
    case Text => Ok(t)
    case End => Ok(Tally(if t.stack == [] then [] else t.stack[..|t.stack| - 1], t.counter))
    case Empty => Panicked("what")
  }

  /** Whether the loop breaks right after processing `item`. */
  predicate Over(item: Item, nMax: Option<nat>) {
    nMax.Some? && item.number > nMax.value
  }

  /** What the loop returns when it starts in state `t` with `items` still to
      come: it processes each item in turn and stops after the first one over
      the cut-off, at the end of the items, or at the first panic. */
  function Run(t: Tally, items: seq<Item>, nMax: Option<nat>): (r: Result<Counter>)
    ensures r.Panicked? ==> r.message == "what"
    decreases |items|
  {
    if items == [] then Ok(t.counter)
    else match Apply(t, items[0])
      case Panicked(m) => Panicked(m)
      case Ok(next) => if Over(items[0], nMax) then Ok(next.counter) else Run(next, items[1..], nMax)
  }

  /** The table `get_edge_counts` returns for the item stream `items`. */
  function EdgeCounts(items: seq<Item>, nMax: Option<nat>): Result<Counter> {
    Run(Init, items, nMax)
  }

  /** `get_edge_counts`, reading from a fresh iterator over the reader stream `raw`. */
  method GetEdgeCounts(raw: seq<RawToken>, nMax: Option<nat>) returns (r: Result<Counter>)
    ensures r == EdgeCounts(Stream(raw), nMax)
  {
    var iter := new XmlIterator(raw);
    var counter: Counter := map[];
    var tagStack: seq<string> := [];
    ghost var goal := EdgeCounts(Stream(raw), nMax);
    while true
      invariant iter.Valid() && iter.raw == raw
      invariant Run(Tally(tagStack, counter), Items(iter.acts, iter.pos, iter.count), nMax) == goal
      decreases |raw| - iter.pos
    {
      ItemsStep(iter.acts, iter.pos, iter.count);
      ghost var before := Tally(tagStack, counter);
      var next := iter.Next();
      if next.None? {
        break;
      }
      var item := next.value;
      match item.kind {
        case Start =>
          tagStack := tagStack + [item.value];
          var count := if tagStack in counter then counter[tagStack] else 0;
          counter := counter[tagStack := count + 1];
          assert Apply(before, item) == Ok(Tally(tagStack, counter));
        case Text =>
          assert Apply(before, item) == Ok(before);
        case End =>
          if tagStack != [] {
            tagStack := tagStack[..|tagStack| - 1];
          }
          assert Apply(before, item) == Ok(Tally(tagStack, counter));
        case Empty =>
          return Panicked("what");
      }
      RunCons(before, item, Tally(tagStack, counter), Items(iter.acts, iter.pos, iter.count), nMax);
      if nMax.Some? && item.number > nMax.value {
        break;
      }
    }
    return Ok(counter);
  }

  /** A pass that does not panic either breaks or goes on with the rest. */
  lemma RunCons(t: Tally, item: Item, u: Tally, rest: seq<Item>, nMax: Option<nat>)
    requires Apply(t, item) == Ok(u)
    ensures Run(t, [item] + rest, nMax) == if Over(item, nMax) then Ok(u.counter) else Run(u, rest, nMax)
  {
    assert ([item] + rest)[1..] == rest;
  }

  /** What one more `next` call contributes to the items. */
  lemma ItemsStep(acts: seq<Action>, pos: nat, n: nat)
    requires pos <= |acts|
    ensures var (p, next) := Scan(acts, pos);
      match p
      case None => Items(acts, pos, n) == []
      case Some(payload) => Items(acts, pos, n) == [Item(n, payload.kind, payload.value)] + Items(acts, next, n + 1)
  {
  }

  /** The items the loop processes: all of them without a cut-off, otherwise
      up to and including the first whose number exceeds it. */
  function Cut(items: seq<Item>, nMax: Option<nat>): (r: seq<Item>)
    ensures |r| <= |items| && r == items[..|r|]
  {
    if items == [] then []
    else if Over(items[0], nMax) then [items[0]]
    else [items[0]] + Cut(items[1..], nMax)
  }

  /** Without a cut-off every item is processed. */
  lemma {:induction false} CutNone(items: seq<Item>)
    ensures Cut(items, None) == items
  {
    if items != [] {
      CutNone(items[1..]);
    }
  }

  /** The loop reads on past an item only when that item is not over the cut-off. */
  lemma {:induction false} CutStops(items: seq<Item>, nMax: Option<nat>)
    ensures forall i :: 0 <= i < |Cut(items, nMax)| - 1 ==> !Over(items[i], nMax)
    ensures |Cut(items, nMax)| < |items| ==> Cut(items, nMax) != [] && Over(items[|Cut(items, nMax)| - 1], nMax)
  {
    if items != [] && !Over(items[0], nMax) {
      CutStops(items[1..], nMax);
    }
  }

  /** Cut-offs ordered with "no cut-off" above every number. */
  predicate AtMost(a: Option<nat>, b: Option<nat>) {
    b.None? || (a.Some? && a.value <= b.value)
  }

  /** A larger cut-off processes at least the same items. */
  lemma {:induction false} CutGrows(items: seq<Item>, a: Option<nat>, b: Option<nat>)
    requires AtMost(a, b)
    ensures |Cut(items, a)| <= |Cut(items, b)|
  {
    if items != [] && !Over(items[0], a) {
      CutGrows(items[1..], a, b);
    }
  }

  /** The counts of a concatenation add up. */
  lemma {:induction false} CountKindAppend(a: seq<Item>, b: seq<Item>, k: Kind)
    ensures CountKind(a + b, k) == CountKind(a, k) + CountKind(b, k)
  {
    if a != [] {
      assert (a + b)[1..] == a[1..] + b;
      CountKindAppend(a[1..], b, k);
    } else {
      assert a + b == b;
    }
  }

  /** The count over a sequence is the count over a prefix plus the count over the rest. */
  lemma CountKindSplit(s: seq<Item>, m: nat, k: Kind)
    requires m <= |s|
    ensures CountKind(s, k) == CountKind(s[..m], k) + CountKind(s[m..], k)
  {
    assert s == s[..m] + s[m..];
    CountKindAppend(s[..m], s[m..], k);
  }

  lemma CountKindCons(x: Item, rest: seq<Item>, k: Kind)
    ensures CountKind([x] + rest, k) == (if x.kind == k then 1 else 0) + CountKind(rest, k)
  {
    assert ([x] + rest)[1..] == rest;
  }

  /** An item of kind `k` counts. */
  lemma {:induction false} CountKindPositive(s: seq<Item>, j: nat, k: Kind)
    requires j < |s| && s[j].kind == k
    ensures CountKind(s, k) > 0
  {
    if j > 0 {
      CountKindPositive(s[1..], j - 1, k);
    }
  }

  /** Keys are non-empty paths and values are at least 1. */
  predicate WellFormed(c: Counter) {
    forall p :: p in c ==> |p| >= 1 && c[p] >= 1
  }

  ghost function Pick(c: Counter): Path
    requires c != map[]
  {
    var p :| p in c; p
  }

  /** The sum of all counts. */
  ghost function Total(c: Counter): int
    decreases |c|
  {
    if c == map[] then 0
    else
      var p := Pick(c);
      assert |c - {p}| < |c| by {
        assert (c - {p}).Keys == c.Keys - {p};
      }
      c[p] + Total(c - {p})
  }

  /** The total may be summed starting from any key. */
  lemma {:induction false} TotalRemove(c: Counter, p: Path)
    requires p in c
    ensures Total(c) == c[p] + Total(c - {p})
    decreases |c|
  {
    var q := Pick(c);
    if q != p {
      assert (c - {q}).Keys == c.Keys - {q};
      TotalRemove(c - {q}, p);
      TotalRemove(c - {p}, q);
      assert c - {q} - {p} == c - {p} - {q};
    }
  }

  /** Counting one more occurrence of a path raises the total by one. */
  lemma TotalIncrement(c: Counter, p: Path)
    ensures Total(c[p := (if p in c then c[p] else 0) + 1]) == Total(c) + 1
  {
    var d := c[p := (if p in c then c[p] else 0) + 1];
    TotalRemove(d, p);
    assert d - {p} == c - {p};
    if p in c {
      TotalRemove(c, p);
    } else {
      assert c - {p} == c;
    }
  }

  /** What one item does to the state: a start pushes its name and adds one to
      the count of the new stack, from 0 when the path was absent, leaving
      every other path's count alone; an end drops the innermost name, if any,
      and leaves the counts alone; a text changes nothing; an "empty" panics. */
  lemma ApplySpec(t: Tally, item: Item)
    ensures item.kind == Empty <==> Apply(t, item) == Panicked("what")
    ensures item.kind == Start ==>
      var u := Apply(t, item).value;
      && u.stack == t.stack + [item.value]
      && u.counter.Keys == t.counter.Keys + {u.stack}
      && u.counter[u.stack] == (if u.stack in t.counter then t.counter[u.stack] else 0) + 1
      && forall p :: p in t.counter && p != u.stack ==> u.counter[p] == t.counter[p]
    ensures item.kind == End ==>
      var u := Apply(t, item).value;
      && u.counter == t.counter
      && |u.stack| == (if t.stack == [] then 0 else |t.stack| - 1)
      && u.stack == t.stack[..|u.stack|]
    ensures item.kind == Text ==> Apply(t, item) == Ok(t)
  {
  }

  /** Each item adds one to the total when it is a start and nothing otherwise. */
  lemma ApplyTotal(t: Tally, item: Item)
    requires Apply(t, item).Ok?
    ensures Total(Apply(t, item).value.counter) == Total(t.counter) + (if item.kind == Start then 1 else 0)
  {
    if item.kind == Start {
      TotalIncrement(t.counter, t.stack + [item.value]);
    }
  }

  /** The loop panics exactly when it processes an "empty" item, and always with the same message. */
  lemma {:induction false} RunPanics(t: Tally, items: seq<Item>, nMax: Option<nat>)
    ensures Run(t, items, nMax).Panicked? <==> CountKind(Cut(items, nMax), Empty) > 0
    ensures Run(t, items, nMax).Panicked? ==> Run(t, items, nMax).message == "what"
    decreases |items|
  {
    if items != [] {
      if Over(items[0], nMax) {
        CountKindCons(items[0], [], Empty);
      } else {
        CountKindCons(items[0], Cut(items[1..], nMax), Empty);
        if Apply(t, items[0]).Ok? {
          RunPanics(Apply(t, items[0]).value, items[1..], nMax);
        }
      }
    }
  }

  /** Every state the loop reaches keeps the counter well formed. */
  lemma {:induction false} RunWellFormed(t: Tally, items: seq<Item>, nMax: Option<nat>)
    requires WellFormed(t.counter)
    ensures Run(t, items, nMax).Ok? ==> WellFormed(Run(t, items, nMax).value)
    decreases |items|
  {
    if items != [] && Apply(t, items[0]).Ok? {
      var next := Apply(t, items[0]).value;
      assert WellFormed(next.counter);
      if !Over(items[0], nMax) {
        RunWellFormed(next, items[1..], nMax);
      }
    }
  }

  /** The loop adds one to the total for each start it processes. */
  lemma {:induction false} RunTotal(t: Tally, items: seq<Item>, nMax: Option<nat>)
    ensures Run(t, items, nMax).Ok? ==>
      Total(Run(t, items, nMax).value) == Total(t.counter) + CountKind(Cut(items, nMax), Start)
    decreases |items|
  {
    if items != [] && Apply(t, items[0]).Ok? {
      var next := Apply(t, items[0]).value;
      ApplyTotal(t, items[0]);
      if Over(items[0], nMax) {
        CountKindCons(items[0], [], Start);
      } else {
        CountKindCons(items[0], Cut(items[1..], nMax), Start);
        RunTotal(next, items[1..], nMax);
      }
    }
  }

  /** The table is produced exactly when no "empty" item is processed; its
      keys are non-empty paths, its values are at least 1, and its values add
      up to the number of starts processed. */
  lemma EdgeCountsSpec(items: seq<Item>, nMax: Option<nat>)
    ensures EdgeCounts(items, nMax).Ok? <==> CountKind(Cut(items, nMax), Empty) == 0
    ensures EdgeCounts(items, nMax).Panicked? ==> EdgeCounts(items, nMax).message == "what"
    ensures EdgeCounts(items, nMax).Ok? ==>
      && WellFormed(EdgeCounts(items, nMax).value)
      && Total(EdgeCounts(items, nMax).value) == CountKind(Cut(items, nMax), Start)
  {
    RunPanics(Init, items, nMax);
    RunWellFormed(Init, items, nMax);
    RunTotal(Init, items, nMax);
  }

  /** With `n_max = Some(x)` at most x + 2 items are processed: those numbered 0 to x + 1. */
  lemma CutBound(raw: seq<RawToken>, x: nat)
    ensures |Cut(Stream(raw), Some(x))| <= x + 2
  {
    var items := Stream(raw);
    var c := Cut(items, Some(x));
    StreamNumbers(raw);
    CutStops(items, Some(x));
    if |c| >= 2 {
      assert !Over(items[|c| - 2], Some(x));
    }
  }

  /** Raising the cut-off never lowers the total. */
  lemma TotalMonotone(items: seq<Item>, a: Option<nat>, b: Option<nat>)
    requires AtMost(a, b) && EdgeCounts(items, b).Ok?
    ensures EdgeCounts(items, a).Ok?
    ensures Total(EdgeCounts(items, a).value) <= Total(EdgeCounts(items, b).value)
  {
    var ca, cb := Cut(items, a), Cut(items, b);
    CutGrows(items, a, b);
    assert ca == cb[..|ca|];
    CountKindSplit(cb, |ca|, Empty);
    CountKindSplit(cb, |ca|, Start);
    EdgeCountsSpec(items, a);
    EdgeCountsSpec(items, b);
  }

  /** A start beyond the cut-off makes the limited total strictly smaller than the unlimited one. */
  lemma TotalLimitedLess(items: seq<Item>, x: nat, j: nat)
    requires EdgeCounts(items, None).Ok?
    requires |Cut(items, Some(x))| <= j < |items| && items[j].kind == Start
    ensures EdgeCounts(items, Some(x)).Ok?
    ensures Total(EdgeCounts(items, Some(x)).value) < Total(EdgeCounts(items, None).value)
  {
    var c := Cut(items, Some(x));
    CutNone(items);
    CountKindSplit(items, |c|, Empty);
    CountKindSplit(items, |c|, Start);
    CountKindPositive(items[|c|..], j - |c|, Start);
    EdgeCountsSpec(items, Some(x));
    EdgeCountsSpec(items, None);
  }

  /** On input that never ends early and holds no self-closing tag, the
      unlimited table is produced and counts every raw start tag once. */
  lemma StreamTotal(raw: seq<RawToken>)
    requires NeverStops(raw) && CountTags(raw, Empty) == 0
    ensures EdgeCounts(Stream(raw), None).Ok?
    ensures Total(EdgeCounts(Stream(raw), None).value) == CountTags(raw, Start)
  {
    StreamTagCounts(raw);
    CutNone(Stream(raw));
    EdgeCountsSpec(Stream(raw), None);
  }
}
