/**
  The post-generation half of `TableParser` (src/modules/extractor.py): the
  clean-up applied to the decoder's raw output and the tag-stream decoder
  `_token2json`, which turns a flat `<name>...</name>` string into a nested
  record.
 */
module Extractor {
  import opened PyText

  /** A decoded record value: Python's `str`, `dict` or `list`, as an explicit sum. */
  datatype Value = Str(text: string) | Map(fields: map<string, Value>) | List(items: seq<Value>)

  /** The end-of-sequence and padding token strings of the decoder's tokenizer. */
  datatype Markers = Markers(eos: string, pad: string)

  // ---------------------------------------------------------------------------
  // The two regular expressions of the decoder, as character scans
  // ---------------------------------------------------------------------------

  /** The class `[a-zA-Z0-9_]`. */
  predicate IsNameChar(c: char) {
    ('a' <= c <= 'z') || ('A' <= c <= 'Z') || ('0' <= c <= '9') || c == '_'
  }

  /** A tag name: one or more characters of the class `[a-zA-Z0-9_]`. */
  predicate IsName(key: string) {
    |key| > 0 && forall i | 0 <= i < |key| :: IsNameChar(key[i])
  }

  /** `<([a-zA-Z0-9_]+)>` matches `s[i..k + 1]`; its group is `s[i + 1..k]`. */
  predicate OpenTagAt(s: string, i: int, k: int) {
    0 <= i && i + 1 < k < |s| && s[i] == '<' && s[k] == '>' &&
    forall m | i < m < k :: IsNameChar(s[m])
  }

  /** `<.*?>` matches `s[i..j + 1]`: `.` is any character but a newline, and the
      lazy quantifier stops at the first `>`. */
  predicate LazyTagAt(s: string, i: int, j: int) {
    0 <= i < j < |s| && s[i] == '<' && s[j] == '>' &&
    forall m | i < m < j :: s[m] != '>' && s[m] != '\n'
  }

  /** End of the run of name characters that starts at `j`. */
  function NameEnd(s: string, j: nat): (k: nat)
    requires j <= |s|
    ensures j <= k <= |s|
    ensures forall m | j <= m < k :: IsNameChar(s[m])
    ensures k < |s| ==> !IsNameChar(s[k])
    decreases |s| - j
  {
    if j < |s| && IsNameChar(s[j]) then NameEnd(s, j + 1) else j
  }

  /** First index at or after `j` holding `>` or a newline, or `|s|`. */
  function LineEnd(s: string, j: nat): (k: nat)
    requires j <= |s|
    ensures j <= k <= |s|
    ensures forall m | j <= m < k :: s[m] != '>' && s[m] != '\n'
    ensures k < |s| ==> s[k] == '>' || s[k] == '\n'
    decreases |s| - j
  {
    if j < |s| && s[j] != '>' && s[j] != '\n' then LineEnd(s, j + 1) else j
  }

  /** `re.search(r"<([a-zA-Z0-9_]+)>", s)` from index `from`: the leftmost match,
      as the pair (index of `<`, index of `>`). */
  function FindOpen(s: string, from: nat): (r: Option<(nat, nat)>)
    ensures r.Some? ==> from <= r.value.0 && OpenTagAt(s, r.value.0, r.value.1)
    ensures r.Some? ==> forall i, k | from <= i < r.value.0 :: !OpenTagAt(s, i, k)
    ensures r.None? ==> forall i, k | from <= i :: !OpenTagAt(s, i, k)
    decreases |s| - from
  {
    if from >= |s| then None
    else
      var k := NameEnd(s, from + 1);
      if s[from] == '<' && from + 1 < k < |s| && s[k] == '>' then Some((from, k))
      else
        FindOpen(s, from + 1)
  }

  /** `re.search(r"<.*?>", s)` from index `from`: the leftmost match. */
  function FindLazyTag(s: string, from: nat): (r: Option<(nat, nat)>)
    ensures r.Some? ==> from <= r.value.0 && LazyTagAt(s, r.value.0, r.value.1)
    ensures r.Some? ==> forall i, j | from <= i < r.value.0 :: !LazyTagAt(s, i, j)
    ensures r.None? ==> forall i, j | from <= i :: !LazyTagAt(s, i, j)
    decreases |s| - from
  {
    if from >= |s| then None
    else
      var j := LineEnd(s, from + 1);
      if s[from] == '<' && j < |s| && s[j] == '>' then Some((from, j))
      else
        FindLazyTag(s, from + 1)
  }

  /** `re.search(r"<.*?>", s)` finds a match. */
  predicate HasLazyTag(s: string) {
    FindLazyTag(s, 0).Some?
  }

  // ---------------------------------------------------------------------------
  // Clean-up of the raw decoder output (extract_table, lines 46-48)
  // ---------------------------------------------------------------------------

  /** `s[i..j + 1]` is the leftmost match of `<.*?>`. */
  ghost predicate FirstLazyTagAt(s: string, i: int, j: int) {
    LazyTagAt(s, i, j) && forall i', j' | 0 <= i' < i :: !LazyTagAt(s, i', j')
  }

  /** A lazy tag that starts at `i` ends at the first `>` after `i`. */
  lemma LazyTagEnd(s: string, i: int, j: int, j': int)
    requires LazyTagAt(s, i, j) && LazyTagAt(s, i, j')
    ensures j == j'
  {
  }

  /** `re.sub(r"<.*?>", "", s, count=1)`: delete the leftmost lazy tag only,
      keeping everything before and after it. */
  function RemoveFirstLazyTag(s: string): (r: string)
    ensures HasLazyTag(s) <==> exists i, j :: FirstLazyTagAt(s, i, j)
    ensures forall i, j | FirstLazyTagAt(s, i, j) :: r == s[..i] + s[j + 1..]
    ensures !HasLazyTag(s) ==> r == s
    ensures HasLazyTag(s) ==> |r| < |s|
  {
    match FindLazyTag(s, 0)
    case None => s
    case Some((i0, j0)) =>
      assert forall i, j | FirstLazyTagAt(s, i, j) :: i == i0 && j == j0 by {
        forall i, j | FirstLazyTagAt(s, i, j) ensures i == i0 && j == j0 {
          LazyTagEnd(s, i, j, j0);
        }
      }
      assert FirstLazyTagAt(s, i0, j0);
      s[..i0] + s[j0 + 1..]
  }

  /** The raw decoder output with the end and padding markers removed, then
      the leftmost `<...>` tag deleted wherever it stands (in the decoder's
      output, the start-of-task prompt), then whitespace trimmed. */
  function Cleanup(raw: string, markers: Markers): (r: string)
    ensures |r| <= |raw|
    ensures r == [] || (!IsSpace(r[0]) && !IsSpace(r[|r| - 1]))
  {
    Strip(RemoveFirstLazyTag(RemoveAll(RemoveAll(raw, markers.eos), markers.pad)))
  }

  // ---------------------------------------------------------------------------
  // The tag-stream decoder (_token2json, lines 52-82)
  // ---------------------------------------------------------------------------

  /** The list of values a key stands for: the items of a list, or the value itself. */
  function Entries(v: Value): seq<Value> {
    if v.List? then v.items else [v]
  }

  /** Lines 70-74: store a nested record under `key`; a key that already holds
      a value collects the old entries and the new record in a list. */
  function MergeNested(output: map<string, Value>, key: string, inner: map<string, Value>): (r: map<string, Value>)
    ensures r.Keys == output.Keys + {key}
    ensures forall k | k in output && k != key :: r[k] == output[k]
    ensures r[key].List? <==> key in output
    ensures Entries(r[key]) == (if key in output then Entries(output[key]) else []) + [Map(inner)]
  {
    if key in output then
      var existing := if output[key].List? then output[key] else List([output[key]]);
      output[key := List(existing.items + [Map(inner)])]
    else
      output[key := Map(inner)]
  }

  /** One pass of the loop's search: the first opening tag, the first literal
      closing tag for its name in the whole remaining string, the text between
      them (before stripping) and what remains after the closing tag. */
  datatype Step = Stop | Element(key: string, between: string, rest: string)

  function NextElement(tokens: string): (r: Step)
    ensures r.Element? ==> |r.between| < |tokens| && |r.rest| < |tokens|
  {
    var open := FindOpen(tokens, 0);
    if open.None? then Stop
    else
      var key := tokens[open.value.0 + 1..open.value.1];
      var close := FindSub(tokens, "</" + key + ">", 0);
      if close.None? then Stop
      else Element(key, Slice(tokens, open.value.1 + 1, close.value), tokens[close.value + |key| + 3..])
  }

  /** A search step that finds both tags yields the pieces between and
      after them. */
  lemma StepFound(t: string, i: nat, k: nat, c: nat, key: string, v: string, rest: string)
    requires FindOpen(t, 0) == Some((i, k)) && key == t[i + 1..k]
    requires FindSub(t, "</" + key + ">", 0) == Some(c)
    requires v == Slice(t, k + 1, c) && rest == t[c + |key| + 3..]
    ensures NextElement(t) == Element(key, v, rest)
  {
    var open := FindOpen(t, 0);
    assert open.value.0 + 1 == i + 1 && open.value.1 == k;
    assert t[open.value.0 + 1..open.value.1] == key;
  }

  /** The result of running the loop of `_token2json` on `tokens` with `output`
      already built. */
  function DecodeFrom(tokens: string, output: map<string, Value>): map<string, Value>
    decreases |tokens|
  {
    if tokens == [] then output
    else match NextElement(tokens)
      case Stop => output
      case Element(key, between, rest) =>
        var value := Strip(between);
        if HasLazyTag(value) then DecodeFrom(rest, MergeNested(output, key, DecodeFrom(value, map[])))
        else DecodeFrom(rest, output[key := Str(value)])
  }

  /** What the found-element branch of `DecodeFrom` stores into `output`,
      under a name of its own so that the loop and the lemmas can refer to
      it; `DecodeStep` states that the two agree. */
  ghost function Absorb(output: map<string, Value>, key: string, value: string): map<string, Value> {
    if HasLazyTag(value) then MergeNested(output, key, Decode(value)) else output[key := Str(value)]
  }

  /** One iteration of the loop, as a single equation. */
  lemma DecodeStep(tokens: string, output: map<string, Value>)
    requires tokens != [] && NextElement(tokens).Element?
    ensures DecodeFrom(tokens, output) ==
      DecodeFrom(NextElement(tokens).rest, Absorb(output, NextElement(tokens).key, Strip(NextElement(tokens).between)))
  {
  }

  /** `_token2json(tokens)`. */
  function Decode(tokens: string): map<string, Value> {
    DecodeFrom(tokens, map[])
  }

  /** `_token2json`: a loop over a shrinking string that fills `output` in
      place, recursing into values that contain a tag. The recursive call
      returns the map it builds, never a list, so the source's branch for a
      list-valued result (lines 66-68) has no counterpart here. */
  method Token2Json(tokens0: string) returns (output: map<string, Value>)
    ensures output == Decode(tokens0)
    decreases |tokens0|
  {
    output := map[];
    var tokens := tokens0;
    while tokens != []
      invariant |tokens| <= |tokens0|
      invariant DecodeFrom(tokens, output) == Decode(tokens0)
      decreases |tokens|
    {
      var start := FindOpen(tokens, 0);
      if start.Some? {
        var key := tokens[start.value.0 + 1..start.value.1];
        var end := FindSub(tokens, "</" + key + ">", 0);
        if end.Some? {
          var between := Slice(tokens, start.value.1 + 1, end.value);
          var rest := tokens[end.value + |key| + 3..];
          StepFound(tokens, start.value.0, start.value.1, end.value, key, between, rest);
          DecodeStep(tokens, output);
          var value := Strip(between);
          ghost var next := Absorb(output, key, value);
          if HasLazyTag(value) {
            var inner := Token2Json(value);
            output := MergeNested(output, key, inner);
          } else {
            output := output[key := Str(value)];
          }
          assert output == next;
          tokens := rest;
        } else {
          assert NextElement(tokens) == Stop;
          tokens := [];
        }
      } else {
        assert NextElement(tokens) == Stop;
        tokens := [];
      }
    }
  }

  /** `extract_table` from the raw decoded sequence on: clean up, then decode. */
  method ExtractTable(raw: string, markers: Markers) returns (record: map<string, Value>)
    ensures record == Decode(Cleanup(raw, markers))
  {
    var cleaned := Cleanup(raw, markers);
    record := Token2Json(cleaned);
  }
}
