/** The event filter and numbering state machine `XMLIterator` of src/lib.rs.

    The quick-xml reader is abstracted as the sequence of results its
    successive `read_event_into` calls return; once that sequence is used up
    the reader answers Eof, and keeps answering Eof. */
module Events {
  import opened Wrappers
  import opened Utf8
  import opened Whitespace

  /** One result of `read_event_into`. Tags carry their qualified name as raw
      bytes; `RText` carries the outcome of `unescape` (None when entity or
      character-reference expansion failed); `ROther` is a comment, CDATA
      section, XML declaration, processing instruction or DOCTYPE; `RError` is
      a reader error. */
  datatype RawToken =
    | RStart(qname: seq<byte>)
    | REnd(qname: seq<byte>)
    | REmpty(qname: seq<byte>)
    | RText(unescaped: Option<string>)
    | ROther
    | RError
  {
    predicate IsTag() {
      RStart? || REnd? || REmpty?
    }

    function TagKind(): Kind
      requires IsTag()
    {
      if RStart? then Start else if REnd? then End else Empty
    }
  }

  /** The event names "start", "end", "empty" and "text" of the yielded tuples. */
  datatype Kind = Start | End | Empty | Text

  /** A yielded `(count, event, value)` tuple. */
  datatype Item = Item(number: nat, kind: Kind, value: string)

  /** An item before it is stamped with its number. */
  datatype Payload = Payload(kind: Kind, value: string)

  /** What `next` does with one raw token: yield a payload, read on, or end iteration. */
  datatype Action = Emit(payload: Payload) | Skip | Stop

  const Colon: byte := 0x3A

  function FirstColon(q: seq<byte>): (r: Option<nat>)
    ensures r.None? <==> Colon !in q
    ensures r.Some? ==> r.value < |q| && q[r.value] == Colon && Colon !in q[..r.value]
  {
    if q == [] then None
    else if q[0] == Colon then Some(0)
    else match FirstColon(q[1..])
      case None => None
      case Some(i) =>
        assert q[..i + 1] == [q[0]] + q[1..][..i];
        Some(i + 1)
  }

  /** The local name of a qualified name: what follows the first colon, if any. */
  function LocalName(q: seq<byte>): (r: seq<byte>)
    ensures Colon !in q ==> r == q
    ensures Colon in q ==>
      && |r| < |q|
      && q[|q| - |r| - 1] == Colon
      && Colon !in q[..|q| - |r| - 1]
      && q[|q| - |r|..] == r
  {
    match FirstColon(q)
    case None => q
    case Some(i) => q[i + 1..]
  }

  /** The handling of a Start, End or Empty tag: its local name must be UTF-8. */
  function TagAction(kind: Kind, q: seq<byte>): Action {
    match Decode(LocalName(q))
    case None => Stop
    case Some(name) => Emit(Payload(kind, name))
  }

  /** The body of the `match` in `next`, for one raw token. */
  function Classify(t: RawToken): (r: Action)
    ensures r.Stop? ==> t.RError? || t.IsTag()
    ensures r.Emit? && t.IsTag() ==> r.payload.kind == t.TagKind()
    ensures r.Emit? && !t.IsTag() ==> t.RText? && r.payload.kind == Text && r.payload.value != []
  {
    match t
    case RStart(q) => TagAction(Start, q)
    case REnd(q) => TagAction(End, q)
    case REmpty(q) => TagAction(Empty, q)
    case RText(u) =>
      if u.None? then Skip
      else
        var value := Trim(u.value);
        if value == [] then Skip else Emit(Payload(Text, value))
    case ROther => Skip
    case RError => Stop
  }

  /** What `next` does with each kind of raw token: a tag yields its local
      name, or ends iteration when that name is not UTF-8; a text run yields
      its trimmed, unescaped text and is skipped when unescaping fails or
      nothing is left after trimming; a reader error ends iteration;
      everything else is skipped. */
  lemma ClassifySpec(t: RawToken)
    ensures Classify(t).Stop? <==> t.RError? || (t.IsTag() && Decode(LocalName(t.qname)).None?)
    ensures Classify(t).Skip? <==>
      t.ROther? || (t.RText? && (t.unescaped.None? || AllWhitespace(t.unescaped.value)))
    ensures Classify(t).Emit? && t.IsTag() ==>
      var p := Classify(t).payload;
      p.kind == t.TagKind() && Encode(p.value) == LocalName(t.qname)
    ensures Classify(t).Emit? && t.RText? ==>
      var p := Classify(t).payload;
      && p.kind == Text
      && p.value == Trim(t.unescaped.value)
      && p.value != []
      && !IsWhitespace(p.value[0])
      && !IsWhitespace(p.value[|p.value| - 1])
  {
    if t.IsTag() && Classify(t).Emit? {
      EncodeDecode(LocalName(t.qname));
    }
    if t.RText? && t.unescaped.Some? {
      TrimSpec(t.unescaped.value);
    }
  }

  /** What `next` does with each token of the reader's stream. */
  function Actions(raw: seq<RawToken>): seq<Action> {
    seq(|raw|, i requires 0 <= i < |raw| => Classify(raw[i]))
  }

  /** One call of `next` with the reader at `pos`: the payload it yields (None
      ends iteration) and the reader position afterwards, given what `next`
      does with each token. */
  function Scan(acts: seq<Action>, pos: nat): (r: (Option<Payload>, nat))
    requires pos <= |acts|
    ensures pos <= r.1 <= |acts|
    ensures r.0.Some? ==> pos < r.1
    decreases |acts| - pos
  {
    if pos == |acts| then (None, pos)
    else
      match acts[pos]
      case Emit(p) => (Some(p), pos + 1)
      case Stop => (None, pos + 1)
      case Skip => Scan(acts, pos + 1)
  }

  /** A call consumes every token it skips and then the first token it does
      not skip: it yields that token's payload, or ends iteration on it. A
      call that reaches the end of input ends iteration, and at the end of
      input it consumes nothing. */
  lemma {:induction false} ScanSpec(acts: seq<Action>, pos: nat)
    requires pos <= |acts|
    ensures var (p, next) := Scan(acts, pos);
      && (forall i :: pos <= i < next - 1 ==> acts[i].Skip?)
      && (next == pos ==> pos == |acts| && p == None)
      && (next > pos ==>
            match acts[next - 1]
            case Emit(payload) => p == Some(payload)
            case Stop => p == None
            case Skip => next == |acts| && p == None)
    decreases |acts| - pos
  {
    if pos < |acts| && acts[pos].Skip? {
      ScanSpec(acts, pos + 1);
    }
  }

  /** `XMLIterator`: the reader and the call counter. */
  class XmlIterator {
    const raw: seq<RawToken>
    /** What `next` does with each token of `raw`. */
    ghost const acts: seq<Action>
    var pos: nat
    var count: nat

    ghost predicate Valid()
      reads this
    {
      && pos <= |raw| == |acts|
      && forall i {:trigger Classify(raw[i])} :: 0 <= i < |raw| ==> acts[i] == Classify(raw[i])
    }

    /** `get_xml_iterator`, once the file is open: a fresh reader, count 0. */
    constructor (raw: seq<RawToken>)
      ensures Valid() && this.raw == raw && pos == 0 && count == 0
      ensures Items(acts, 0, 0) == Stream(raw)
    {
      this.raw := raw;
      acts := Actions(raw);
      pos := 0;
      count := 0;
    }

    /** `Iterator::next`. Every call advances `count` by one, also a call that
        returns None, and the item it yields carries the count before the call. */
    method Next() returns (item: Option<Item>)
      requires Valid()
      modifies this
      ensures Valid()
      ensures count == old(count) + 1
      ensures pos == Scan(acts, old(pos)).1
      ensures match Scan(acts, old(pos)).0
        case None => item == None
        case Some(p) => item == Some(Item(old(count), p.kind, p.value))
    {
      count := count + 1;
      while pos < |raw|
        invariant old(pos) <= pos <= |raw|
        invariant Scan(acts, pos) == Scan(acts, old(pos))
        invariant count == old(count) + 1
        decreases |raw| - pos
      {
        var t := raw[pos];
        pos := pos + 1;
        match t {
          case RStart(q) =>
            var value := Decode(LocalName(q));
            assert Classify(t) == TagAction(Start, q);
            if value.None? { return None; }
            return Some(Item(count - 1, Start, value.value));
          case REnd(q) =>
            var value := Decode(LocalName(q));
            assert Classify(t) == TagAction(End, q);
            if value.None? { return None; }
            return Some(Item(count - 1, End, value.value));
          case REmpty(q) =>
            var value := Decode(LocalName(q));
            assert Classify(t) == TagAction(Empty, q);
            if value.None? { return None; }
            return Some(Item(count - 1, Empty, value.value));
          case RText(u) =>
            if u.None? {
              assert Classify(t) == Skip;
              assert Scan(acts, pos) == Scan(acts, old(pos));
              continue;
            }
            var value := Trim(u.value);
            assert Classify(t) == if value == [] then Skip else Emit(Payload(Text, value));
            if value == [] {
              assert Scan(acts, pos) == Scan(acts, old(pos));
              continue;
            }
            return Some(Item(count - 1, Text, value));
          case RError =>
            assert Classify(t) == Stop;
            return None;
          case ROther =>
            assert Classify(t) == Skip;
            assert Scan(acts, pos) == Scan(acts, old(pos));
        }
      }
      return None;
    }
  }

  /** The items a consumer receives from an iterator at reader position `pos`
      whose count is `n`, calling `next` until the first None. */
  function Items(acts: seq<Action>, pos: nat, n: nat): seq<Item>
    requires pos <= |acts|
    decreases |acts| - pos
  {
    var (p, next) := Scan(acts, pos);
    if p.None? then [] else [Item(n, p.value.kind, p.value.value)] + Items(acts, next, n + 1)
  }

  /** The items of a fresh iterator over `raw`. */
  function Stream(raw: seq<RawToken>): seq<Item> {
    Items(Actions(raw), 0, 0)
  }

  /** Reference definition, token by token: drop skipped tokens, stop at the
      first token that ends iteration, and number what remains from `n`. */
  function Expected(ts: seq<RawToken>, n: nat): seq<Item> {
    if ts == [] then []
    else match Classify(ts[0])
      case Stop => []
      case Skip => Expected(ts[1..], n)
      case Emit(p) => [Item(n, p.kind, p.value)] + Expected(ts[1..], n + 1)
  }

  /** One `next` call agrees with the reference definition. */
  lemma {:induction false} ScanExpected(raw: seq<RawToken>, pos: nat, n: nat)
    requires pos <= |raw|
    ensures var (p, next) := Scan(Actions(raw), pos);
      match p
      case None => Expected(raw[pos..], n) == []
      case Some(payload) => Expected(raw[pos..], n) == [Item(n, payload.kind, payload.value)] + Expected(raw[next..], n + 1)
    decreases |raw| - pos
  {
    if pos < |raw| {
      assert raw[pos..][1..] == raw[pos + 1..];
      assert raw[pos..][0] == raw[pos];
      if Classify(raw[pos]).Skip? {
        ScanExpected(raw, pos + 1, n);
      }
    }
  }

  /** Repeated `next` calls yield exactly the reference items. */
  lemma {:induction false} ItemsExpected(raw: seq<RawToken>, pos: nat, n: nat)
    requires pos <= |raw|
    ensures Items(Actions(raw), pos, n) == Expected(raw[pos..], n)
    decreases |raw| - pos
  {
    ScanExpected(raw, pos, n);
    var (p, next) := Scan(Actions(raw), pos);
    if p.Some? {
      ItemsExpected(raw, next, n + 1);
    }
  }

  /** The reference items are numbered consecutively from `n`. */
  lemma {:induction false} ExpectedNumbers(ts: seq<RawToken>, n: nat)
    ensures forall i :: 0 <= i < |Expected(ts, n)| ==> Expected(ts, n)[i].number == n + i
  {
    if ts != [] {
      ExpectedNumbers(ts[1..], n);
      ExpectedNumbers(ts[1..], n + 1);
    }
  }

  /** The item of the k-th `next` call carries number k - 1: numbers start at 0 and rise by 1. */
  lemma StreamNumbers(raw: seq<RawToken>)
    ensures forall i :: 0 <= i < |Stream(raw)| ==> Stream(raw)[i].number == i
  {
    ItemsExpected(raw, 0, 0);
    assert raw[0..] == raw;
    ExpectedNumbers(raw, 0);
  }

  /** Nothing from the token that ends iteration, or from anything after it, is ever yielded. */
  lemma {:induction false} ExpectedStopsAt(ts: seq<RawToken>, n: nat, j: nat)
    requires j < |ts| && Classify(ts[j]).Stop?
    ensures Expected(ts, n) == Expected(ts[..j], n)
  {
    if j > 0 {
      assert ts[..j][1..] == ts[1..][..j - 1];
      ExpectedStopsAt(ts[1..], if Classify(ts[0]).Emit? then n + 1 else n, j - 1);
    }
  }

  /** A reader error or a tag name that is not UTF-8 at token `j` cuts the
      stream to the items of the tokens before `j`. */
  lemma StreamStopsAt(raw: seq<RawToken>, j: nat)
    requires j < |raw| && Classify(raw[j]).Stop?
    ensures Stream(raw) == Expected(raw[..j], 0)
  {
    ItemsExpected(raw, 0, 0);
    assert raw[0..] == raw;
    ExpectedStopsAt(raw, 0, j);
  }

  function CountKind(items: seq<Item>, k: Kind): nat {
    if items == [] then 0 else (if items[0].kind == k then 1 else 0) + CountKind(items[1..], k)
  }

  /** The number of raw tags of kind `k`. */
  function CountTags(ts: seq<RawToken>, k: Kind): nat {
    if ts == [] then 0 else (if ts[0].IsTag() && ts[0].TagKind() == k then 1 else 0) + CountTags(ts[1..], k)
  }

  /** Input on which iteration never ends early: no reader error and no tag name that is not UTF-8. */
  predicate NeverStops(ts: seq<RawToken>) {
    forall i :: 0 <= i < |ts| ==> !Classify(ts[i]).Stop?
  }

  /** Each raw Start, End or Empty tag yields exactly one item of that kind. */
  lemma {:induction false} ExpectedTagCounts(ts: seq<RawToken>, n: nat, k: Kind)
    requires NeverStops(ts) && k != Text
    ensures CountKind(Expected(ts, n), k) == CountTags(ts, k)
  {
    if ts != [] {
      NeverStopsTail(ts);
      var m := if Classify(ts[0]).Emit? then n + 1 else n;
      ExpectedTagCounts(ts[1..], m, k);
      TagEmits(ts[0], k);
    }
  }

  lemma NeverStopsTail(ts: seq<RawToken>)
    requires ts != [] && NeverStops(ts)
    ensures !Classify(ts[0]).Stop? && NeverStops(ts[1..])
  {
    assert !Classify(ts[0]).Stop?;
    forall i | 0 <= i < |ts| - 1
      ensures !Classify(ts[1..][i]).Stop?
    {
      assert ts[1..][i] == ts[i + 1];
    }
  }

  /** A token that does not end iteration yields an item of kind `k` exactly when it is a tag of kind `k`. */
  lemma TagEmits(t: RawToken, k: Kind)
    requires !Classify(t).Stop? && k != Text
    ensures (Classify(t).Emit? && Classify(t).payload.kind == k) <==> (t.IsTag() && t.TagKind() == k)
  {
  }

  /** On input that never ends early, the stream holds as many starts, ends
      and empty tags as the raw input does. */
  lemma StreamTagCounts(raw: seq<RawToken>)
    requires NeverStops(raw)
    ensures CountKind(Stream(raw), Start) == CountTags(raw, Start)
    ensures CountKind(Stream(raw), End) == CountTags(raw, End)
    ensures CountKind(Stream(raw), Empty) == CountTags(raw, Empty)
  {
    ItemsExpected(raw, 0, 0);
    assert raw[0..] == raw;
    ExpectedTagCounts(raw, 0, Start);
    ExpectedTagCounts(raw, 0, End);
    ExpectedTagCounts(raw, 0, Empty);
  }

  /** Every text the iterator yields is non-empty and trimmed. */
  lemma StreamTextTrimmed(raw: seq<RawToken>)
    ensures forall i :: 0 <= i < |Stream(raw)| && Stream(raw)[i].kind == Text ==>
      var v := Stream(raw)[i].value;
      v != [] && !IsWhitespace(v[0]) && !IsWhitespace(v[|v| - 1])
  {
    ItemsExpected(raw, 0, 0);
    assert raw[0..] == raw;
    ExpectedTextTrimmed(raw, 0);
  }

  /** Every yielded text is non-empty and trimmed. */
  lemma {:induction false} ExpectedTextTrimmed(ts: seq<RawToken>, n: nat)
    ensures forall i :: 0 <= i < |Expected(ts, n)| && Expected(ts, n)[i].kind == Text ==>
      var v := Expected(ts, n)[i].value;
      v != [] && !IsWhitespace(v[0]) && !IsWhitespace(v[|v| - 1])
  {
    if ts != [] {
      ClassifySpec(ts[0]);
      ExpectedTextTrimmed(ts[1..], n);
      ExpectedTextTrimmed(ts[1..], n + 1);
    }
  }
}
