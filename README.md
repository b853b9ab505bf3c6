# xml_iterator: the event iterator and the edge counter

xml_iterator is a Rust extension for Python that streams an XML file as a
sequence of `(count, event, value)` tuples. It also reduces such a stream to
a table from tag paths (root to element) to the number of times each path
occurs. This project models the Rust layer between the quick-xml tokenizer
and Python:

- `XMLIterator::next` (`Events.XmlIterator.Next`) filters and numbers the
  reader's tokens. It keeps start, end and empty (self-closing) tags under
  their local name. It keeps text runs, unescaped and trimmed, and drops
  them when they are empty after trimming or fail to unescape. It skips
  every other token. It ends iteration at end of input, at a reader error,
  and at a tag name that is not UTF-8. Every call adds one to `count`, and
  the item a call yields carries the count from before the call.
- `get_edge_counts` (`EdgeCounts.GetEdgeCounts`) drives a fresh iterator.
  It keeps a tag stack and a counter map, and stops after the first item
  whose number exceeds the optional cut-off `n_max`. It panics on an
  "empty" item.

The quick-xml reader is modelled as the sequence of results its successive
`read_event_into` calls return (`Events.RawToken`). Once that sequence is
used up, the reader answers end of input. Tag names are raw bytes.
`str::from_utf8` is modelled by `Utf8.Decode`, which accepts exactly the
well-formed sequences of section 4 of RFC 3629. `local_name` is the part
after the first colon. `str::trim` is `Whitespace.Trim`, over the Unicode
White_Space code points that `char::is_whitespace` tests.

Each method is proved against a pure specification:

- `Next` is proved against `Events.Scan` and `Events.Classify`. The stream
  of a fresh iterator (`Events.Stream`) is proved equal to an independent
  token-by-token reference, `Events.Expected`.
- `GetEdgeCounts` is proved against the fold `EdgeCounts.Run`. Its
  properties (well-formed keys and values, totals, panics, the cut-off) are
  lemmas about that fold.

Files:

- `wrappers.dfy`: Option and Result.
- `utf8.dfy`: UTF-8 decoding and encoding.
- `whitespace.dfy`: trimming.
- `events.dfy`: the iterator.
- `edge_counts.dfy`: the counting loop.

Three facts about the code that shape the model:

- Item numbers start at 0: `count` is incremented first and the item
  carries `self.count - 1` (src/lib.rs:153, 158).
- A self-closing tag yields one "empty" item, and `get_edge_counts` panics
  with "what" when it meets one (src/lib.rs:164-166, 56).
- The `n_max` cut-off compares the number of every item (starts, ends and
  texts alike). Because the loop checks it after processing the item, the
  first item over the cut-off is still counted (src/lib.rs:58-63).

## Model

| member | source | states |
|---|---|---|
| Utf8.Decode | src/lib.rs:157 | `str::from_utf8`: a decoded string has at most one character per byte, and it is empty exactly when the bytes are (its exact characterisation is `DecodeEncode` with `EncodeDecode`) |
| Utf8.DecodeFirstEncodeChar | src/lib.rs:157 | decoding the first character of any character's UTF-8 encoding, whatever follows it, returns that character and the encoding's width |
| Utf8.EncodeCharDecodeFirst | src/lib.rs:157 | whenever the first character decodes, the bytes it took are exactly that character's encoding (no overlong or surrogate forms are accepted) |
| Utf8.DecodeEncode | src/lib.rs:157 | every string's UTF-8 encoding passes `from_utf8` and decodes back to the same string |
| Utf8.EncodeDecode | src/lib.rs:157 | whatever `from_utf8` accepts is exactly the encoding of the string it returns |
| Utf8.DecodeCons | src/lib.rs:157 | a non-empty well-formed byte sequence is one character's encoding followed by a well-formed rest, and decodes to that character followed by the rest's string |
| Whitespace.LeadSpec | src/lib.rs:170 | the leading whitespace count covers only whitespace and stops at the first non-whitespace character |
| Whitespace.TrailSpec | src/lib.rs:170 | the trailing whitespace count covers only whitespace and stops at the last non-whitespace character |
| Whitespace.Trim | src/lib.rs:170 | `str::trim`: the result is a slice of the input starting right after its whitespace prefix, and when non-empty it neither starts nor ends with whitespace |
| Whitespace.TrimSpec | src/lib.rs:170 | `trim` returns the part between a whitespace prefix and a whitespace suffix; the result neither starts nor ends with whitespace; it is empty exactly when the input is all whitespace |
| Whitespace.TrimIdempotent | src/lib.rs:170 | trimming a trimmed text changes nothing |
| Events.FirstColon | src/lib.rs:157 | the position of the first colon of a qualified name, or none exactly when the name has no colon |
| Events.LocalName | src/lib.rs:157 | the local name is the whole name when there is no colon; otherwise it is the part after the first colon |
| Events.Classify | src/lib.rs:155-179 | the handling of one token: only a reader error or a tag ends iteration; a tag yields an item of its own kind; anything else that yields is a text run yielding a non-empty "text" item |
| Events.ClassifySpec | src/lib.rs:155-179 | a token ends iteration exactly when it is a reader error or a tag whose local name is not UTF-8. It is skipped exactly when it is a comment-like token, or a text that fails to unescape or is all whitespace. A tag yields its own kind with a name that encodes to its local name. A text yields its trimmed text, which is non-empty and starts and ends with non-whitespace |
| Events.Scan | src/lib.rs:150-182 | one `next` call on the reader: the reader never moves back or past the end, and a call that yields an item has consumed at least one token |
| Events.ScanSpec | src/lib.rs:154-181 | one `next` call consumes the skipped tokens and then the first token it does not skip. It yields that token's payload or ends iteration on it. At end of input it ends iteration and consumes nothing |
| Events.XmlIterator.constructor | src/lib.rs:186-193 | a fresh iterator is at the start of the reader with count 0, and the items it yields are the stream of its reader |
| Events.XmlIterator.Next | src/lib.rs:148-183 | each call adds exactly one to `count`, including a call that returns None. The reader advances to where one scan ends. The call returns the scan's payload stamped with the count before the call, or None when the scan ends iteration |
| Events.ScanExpected | src/lib.rs:148-183 | one `next` call agrees with the token-by-token reference: it returns its first item, or None when the reference is empty |
| Events.ItemsExpected | src/lib.rs:148-183 | calling `next` until the first None yields exactly the reference items |
| Events.ExpectedNumbers | src/lib.rs:153-174 | the reference items are numbered consecutively from the starting count |
| Events.StreamNumbers | src/lib.rs:153-174 | the i-th yielded item carries number i, so numbers start at 0 and rise by one |
| Events.ExpectedStopsAt | src/lib.rs:155-165 | nothing from a token that ends iteration, or from any later token, is yielded |
| Events.StreamStopsAt | src/lib.rs:155-165 | a reader error or a non-UTF-8 tag name at token j cuts the stream to the items of the tokens before j |
| Events.ExpectedTagCounts | src/lib.rs:156-167 | on input that never ends early, each raw start, end or empty tag yields exactly one item of its kind |
| Events.StreamTagCounts | src/lib.rs:156-167 | on input that never ends early, the stream holds as many starts, ends and empty items as the input holds start, end and empty tags (tests/test_basic.py:185-186) |
| Events.ExpectedTextTrimmed | src/lib.rs:168-174 | every text of the reference items is non-empty, and it starts and ends with non-whitespace |
| Events.StreamTextTrimmed | src/lib.rs:168-174 | every text a fresh iterator yields is non-empty, and it starts and ends with non-whitespace |
| EdgeCounts.GetEdgeCounts | src/lib.rs:37-77 | the loop over a fresh iterator returns what the fold over the iterator's stream returns, including its panic |
| EdgeCounts.Cut | src/lib.rs:58-63 | the items the loop examines are a prefix of the stream |
| EdgeCounts.CutNone | src/lib.rs:62 | without a cut-off every item is examined |
| EdgeCounts.CutStops | src/lib.rs:58-63 | the loop reads past an item only when its number does not exceed `n_max`. When it stops early, it has just examined the first item over the cut-off |
| EdgeCounts.CutGrows | src/lib.rs:58-63 | a larger cut-off, or none, examines at least as many items |
| EdgeCounts.CutBound | src/lib.rs:58-63 | with `n_max = Some(x)` at most x + 2 items are examined |
| EdgeCounts.Apply | src/lib.rs:45-57 | one pass of the `match`: it panics exactly on an "empty" item (the effect of each kind is `ApplySpec`) |
| EdgeCounts.Run | src/lib.rs:44-64 | the `for` loop from a given state over the items still to come, with the `n_max` break: whenever it panics, the message is "what" |
| EdgeCounts.ApplySpec | src/lib.rs:45-57 | "start" pushes the name and adds one to the whole stack's count, from 0 when the path is new, leaving other paths alone. "end" pops the innermost name, and popping an empty stack is harmless. "text" changes nothing. Any other kind panics with "what", and nothing else panics |
| EdgeCounts.TotalIncrement | src/lib.rs:48-49 | `entry(..).or_insert(0)` followed by `+= 1` raises the sum of all counts by exactly one |
| EdgeCounts.ApplyTotal | src/lib.rs:45-57 | a start adds one to the sum of the counts; the other kinds add nothing |
| EdgeCounts.RunPanics | src/lib.rs:56 | the loop panics, always with message "what", exactly when it examines an "empty" item |
| EdgeCounts.RunWellFormed | src/lib.rs:44-57 | from a well-formed counter the loop keeps every key a non-empty path and every value at least 1 |
| EdgeCounts.RunTotal | src/lib.rs:44-57 | the loop adds one to the sum of the counts for each start it examines |
| EdgeCounts.EdgeCountsSpec | src/lib.rs:42-64 | the table is produced exactly when no "empty" item is examined. Its keys are non-empty paths and its values are at least 1. Its values add up to the number of starts examined |
| EdgeCounts.TotalMonotone | src/lib.rs:58-63 | if the run with the larger cut-off (or none) succeeds, the run with the smaller one succeeds too, and its total is no larger |
| EdgeCounts.TotalLimitedLess | src/lib.rs:58-63 | when a start lies beyond the examined prefix, the limited table's total is strictly below the unlimited one's (tests/test_basic.py:191-210) |
| EdgeCounts.StreamTotal | src/lib.rs:44-50 | on input that never ends early and has no self-closing tags, the unlimited table is produced and its total is the number of start tags |

## Left out

- The quick-xml reader, `DecodeReaderBytes` encoding detection, `File` and `BufReader` I/O, and the 4 KB buffer (src/lib.rs:1-12, 144, 152, 186-193) are foreign library calls and I/O. They are replaced by the token sequence `raw`. The constructor takes that sequence in place of a path, so the "Failed to open XML file" error (src/lib.rs:40-41) is not modelled.
- Entity and character-reference expansion (`unescape`, sections 4.1 and 4.6 of XML 1.0) happens inside quick-xml. Its outcome is a parameter of each text token: the text or a failure.
- Which byte patterns quick-xml reports as a reader error is not modelled; a reader error is a token of its own.
- After a call that ended iteration on a reader error, the model's reader resumes at the next token. What quick-xml does on the next call after an error is not modelled. `get_edge_counts` never makes such a call, because its `for` loop stops at the first None.
- Events.XmlIterator.Next: `count` is unbounded. The source's `u32` overflow after 2^32 calls (src/lib.rs:145, 153) is not modelled.
- EdgeCounts.GetEdgeCounts: counter values are unbounded. The source's `i32` overflow (src/lib.rs:42, 49) is not modelled, and neither is `n_max`'s `u32` range.
- The `println!` in `get_xml_iterator` (src/lib.rs:187) is output only.
- The pyo3 glue is left out: module registration, the `PyXMLIterator` wrapper, the `Python::with_gil` closures and the `PyDict`/`PyTuple` conversion (src/lib.rs:14-31, 69-74, 121-141). It only forwards items and copies the table.
- The commented-out `read_xml`/`NestedThing` code (src/lib.rs:80-117) is dead code.
- HashMap iteration order and Python dict order are left out. The table is a `map`, which has no order.
- The Python helpers `xml_to_dict` and the Python-side limits are not part of this model, and neither are the benchmarks, the timing tests and the example script. They are I/O, wall-clock measurements, or code that is not among the modelled files.
