/**
  What the tag-stream decoder of src/modules/extractor.py guarantees: where
  its keys come from, when it stops early, how one `<key>...</key>` element
  at the head of the stream is decoded, and the decoder's behaviour on a
  few characteristic inputs.
 */
module ExtractorProps {
  import opened PyText
  import opened Extractor

  // ---------------------------------------------------------------------------
  // The search step
  // ---------------------------------------------------------------------------

  /** No opening tag anywhere in `s`. */
  ghost predicate NoOpenTag(s: string) {
    forall i, k :: !OpenTagAt(s, i, k)
  }

  /** `s[i..k + 1]` is the leftmost opening tag of `s`. */
  ghost predicate FirstOpenTagAt(s: string, i: int, k: int) {
    OpenTagAt(s, i, k) && forall i', k' | 0 <= i' < i :: !OpenTagAt(s, i', k')
  }

  /** The closing `>` of an opening tag is determined by its `<`. */
  lemma OpenTagUnique(s: string, i: int, k: int, k': int)
    requires OpenTagAt(s, i, k) && OpenTagAt(s, i, k')
    ensures k == k'
  {
  }

  /** The scan finds exactly the leftmost opening tag. */
  lemma FindOpenIsFirst(s: string, i: int, k: int)
    requires FirstOpenTagAt(s, i, k)
    ensures FindOpen(s, 0) == Some((i as nat, k as nat))
  {
    var r := FindOpen(s, 0);
    assert r.Some?;
    assert r.value.0 == i;
    OpenTagUnique(s, i, k, r.value.1);
  }

  /** A successful step consumes a `<key>` and a later-or-earlier `</key>` that
      both occur in the remaining text, the value lies inside that text, and
      what remains is a strict suffix of it. */
  lemma ElementShape(tokens: string)
    requires NextElement(tokens).Element?
    ensures IsName(NextElement(tokens).key)
    ensures Contains(tokens, "<" + NextElement(tokens).key + ">")
    ensures Contains(tokens, "</" + NextElement(tokens).key + ">")
    ensures Contains(tokens, NextElement(tokens).between)
    ensures |NextElement(tokens).rest| < |tokens|
    ensures NextElement(tokens).rest == tokens[|tokens| - |NextElement(tokens).rest|..]
  {
    var open := FindOpen(tokens, 0).value;
    var i, k := open.0, open.1;
    var key := tokens[i + 1..k];
    var c := FindSub(tokens, "</" + key + ">", 0).value;
    StepFound(tokens, i, k, c, key, Slice(tokens, k + 1, c), tokens[c + |key| + 3..]);
    ElementPieces(tokens, i, k, c, key);
  }

  /** The pieces of a step whose opening tag is `tokens[i..k + 1]` and whose
      closing tag starts at `c`. */
  lemma ElementPieces(tokens: string, i: nat, k: nat, c: nat, key: string)
    requires OpenTagAt(tokens, i, k) && key == tokens[i + 1..k]
    requires OccursAt(tokens, "</" + key + ">", c)
    ensures IsName(key)
    ensures Contains(tokens, "<" + key + ">") && Contains(tokens, "</" + key + ">")
    ensures Contains(tokens, Slice(tokens, k + 1, c))
    ensures |tokens[c + |key| + 3..]| < |tokens|
  {
    assert tokens[i..i + |"<" + key + ">"|] == "<" + key + ">";
    assert OccursAt(tokens, "<" + key + ">", i);
    if k + 1 < c {
      assert OccursAt(tokens, tokens[k + 1..c], k + 1);
    } else {
      assert OccursAt(tokens, [], 0);
    }
  }

  /** The loop stops exactly when there is no opening tag, or when the name of
      the leftmost one has no closing tag anywhere in the remaining text. */
  lemma StopIff(tokens: string)
    ensures NextElement(tokens).Stop? <==>
      NoOpenTag(tokens) ||
      exists i, k :: FirstOpenTagAt(tokens, i, k) && !Contains(tokens, "</" + tokens[i + 1..k] + ">")
  {
    var open := FindOpen(tokens, 0);
    if open.Some? {
      var (i, k) := open.value;
      assert FirstOpenTagAt(tokens, i, k);
      var key := tokens[i + 1..k];
      var close := FindSub(tokens, "</" + key + ">", 0);
      if close.Some? {
        assert OccursAt(tokens, "</" + key + ">", close.value);
        forall i', k' | FirstOpenTagAt(tokens, i', k')
          ensures Contains(tokens, "</" + tokens[i' + 1..k'] + ">")
        {
          FindOpenIsFirst(tokens, i', k');
        }
      }
    }
  }

  /** Absence handling: with no opening tag, or with a leftmost opening tag
      whose closing tag is missing, the decoder returns what it had built. */
  lemma StopKeepsOutput(tokens: string, output: map<string, Value>)
    requires NoOpenTag(tokens) ||
      exists i, k :: FirstOpenTagAt(tokens, i, k) && !Contains(tokens, "</" + tokens[i + 1..k] + ">")
    ensures DecodeFrom(tokens, output) == output
  {
    StopIff(tokens);
  }

  // ---------------------------------------------------------------------------
  // Where the keys come from
  // ---------------------------------------------------------------------------

  /** Every key, at every nesting level of `v`, is a tag name whose opening tag
      occurs in `t`. */
  ghost predicate Opened(v: Value, t: string)
    decreases v
  {
    match v
    case Str(_) => true
    case Map(m) => forall key | key in m :: IsName(key) && Contains(t, "<" + key + ">") && Opened(m[key], t)
    case List(xs) => forall i | 0 <= i < |xs| :: Opened(xs[i], t)
  }

  lemma StripContained(s: string)
    ensures Contains(s, Strip(s))
  {
    var r := Strip(s);
    var a :| 0 <= a <= |s| - |r| && s[a..a + |r|] == r && SpaceBetween(s, 0, a) && SpaceBetween(s, a + |r|, |s|);
    assert OccursAt(s, r, a);
  }

  lemma OpenedMerge(output: map<string, Value>, key: string, inner: map<string, Value>, t: string)
    requires Opened(Map(output), t) && Opened(Map(inner), t)
    requires IsName(key) && Contains(t, "<" + key + ">")
    ensures Opened(Map(MergeNested(output, key, inner)), t)
  {
    var r := MergeNested(output, key, inner);
    if key in output {
      var prev := output[key];
      assert Opened(prev, t);
      var es := Entries(prev);
      assert forall i | 0 <= i < |es| :: Opened(es[i], t);
      assert r[key] == List(es + [Map(inner)]);
    }
  }

  /** What a step reads lies inside any text that contains the step's input. */
  lemma ElementInside(tokens: string, t: string)
    requires Contains(t, tokens) && NextElement(tokens).Element?
    ensures IsName(NextElement(tokens).key)
    ensures Contains(t, "<" + NextElement(tokens).key + ">")
    ensures Contains(t, Strip(NextElement(tokens).between))
    ensures Contains(t, NextElement(tokens).rest)
  {
    var e := NextElement(tokens);
    ElementShape(tokens);
    ContainsTransitive(t, tokens, "<" + e.key + ">");
    assert OccursAt(tokens, e.rest, |tokens| - |e.rest|);
    ContainsTransitive(t, tokens, e.rest);
    ContainsTransitive(t, tokens, e.between);
    StripContained(e.between);
    ContainsTransitive(t, e.between, Strip(e.between));
  }

  lemma OpenedScalar(output: map<string, Value>, key: string, value: string, t: string)
    requires Opened(Map(output), t)
    requires IsName(key) && Contains(t, "<" + key + ">")
    ensures Opened(Map(output[key := Str(value)]), t)
  {
  }

  lemma {:induction false} DecodeFromOpened(tokens: string, output: map<string, Value>, t: string)
    requires Contains(t, tokens)
    requires Opened(Map(output), t)
    ensures Opened(Map(DecodeFrom(tokens, output)), t)
    decreases |tokens|
  {
    if tokens != [] && NextElement(tokens).Element? {
      var e := NextElement(tokens);
      var value := Strip(e.between);
      ElementInside(tokens, t);
      if HasLazyTag(value) {
        DecodeFromOpened(value, map[], t);
        OpenedMerge(output, e.key, Decode(value), t);
      } else {
        OpenedScalar(output, e.key, value, t);
      }
      DecodeFromOpened(e.rest, Absorb(output, e.key, value), t);
      DecodeStep(tokens, output);
    }
  }

  /** The loop only ever adds keys: a key stored by an earlier step survives
      every later one. */
  lemma {:induction false} DecodeKeepsKeys(tokens: string, output: map<string, Value>)
    ensures output.Keys <= DecodeFrom(tokens, output).Keys
    decreases |tokens|
  {
    if tokens != [] && NextElement(tokens).Element? {
      var e := NextElement(tokens);
      var value := Strip(e.between);
      DecodeKeepsKeys(e.rest, Absorb(output, e.key, value));
      DecodeStep(tokens, output);
    }
  }

  /** Every key of the decoded record is a non-empty `[a-zA-Z0-9_]+` name that
      occurs as an opening tag of the input, and so is every key of every
      nested record. */
  lemma DecodeKeysOpened(tokens: string)
    ensures forall key | key in Decode(tokens) :: IsName(key) && Contains(tokens, "<" + key + ">")
    ensures Opened(Map(Decode(tokens)), tokens)
  {
    assert OccursAt(tokens, tokens, 0);
    DecodeFromOpened(tokens, map[], tokens);
  }

  // ---------------------------------------------------------------------------
  // The shapes the decoder produces
  // ---------------------------------------------------------------------------

  /** A list holds at least two entries, none of them a list, and every entry
      after the first is a record; the same holds inside every record and
      every entry. */
  ghost predicate WellShaped(v: Value)
    decreases v
  {
    match v
    case Str(_) => true
    case Map(m) => forall key | key in m :: WellShaped(m[key])
    case List(xs) =>
      |xs| >= 2 && forall i | 0 <= i < |xs| :: !xs[i].List? && (i > 0 ==> xs[i].Map?) && WellShaped(xs[i])
  }

  /** Merging a well-shaped record into a well-shaped output keeps it
      well-shaped: the list it makes or extends ends with the new record. */
  lemma ShapedMerge(output: map<string, Value>, key: string, inner: map<string, Value>)
    requires WellShaped(Map(output)) && WellShaped(Map(inner))
    ensures WellShaped(Map(MergeNested(output, key, inner)))
  {
    var r := MergeNested(output, key, inner);
    if key in output {
      var prev := output[key];
      assert WellShaped(prev);
      var es := Entries(prev) + [Map(inner)];
      assert r[key] == List(es);
      assert |es| >= 2;
      forall i | 0 <= i < |es| ensures !es[i].List? && (i > 0 ==> es[i].Map?) && WellShaped(es[i]) {
        if i < |es| - 1 {
          assert es[i] == Entries(prev)[i];
        }
      }
    }
  }

  /** Every record the loop builds from a well-shaped start is well-shaped. */
  lemma {:induction false} DecodeFromShaped(tokens: string, output: map<string, Value>)
    requires WellShaped(Map(output))
    ensures WellShaped(Map(DecodeFrom(tokens, output)))
    decreases |tokens|
  {
    if tokens != [] && NextElement(tokens).Element? {
      var e := NextElement(tokens);
      var value := Strip(e.between);
      if HasLazyTag(value) {
        DecodeFromShaped(value, map[]);
        ShapedMerge(output, e.key, Decode(value));
      }
      DecodeFromShaped(e.rest, Absorb(output, e.key, value));
      DecodeStep(tokens, output);
    }
  }

  /** The decoded record is well-shaped: no empty or one-entry list, and no
      list inside a list, at any depth. */
  lemma DecodeShaped(tokens: string)
    ensures WellShaped(Map(Decode(tokens)))
  {
    DecodeFromShaped(tokens, map[]);
  }

  // ---------------------------------------------------------------------------
  // One element at the head of the stream
  // ---------------------------------------------------------------------------

  /** The element `<key>` + v + `</key>`. */
  function Tagged(key: string, v: string): string {
    "<" + key + ">" + v + "</" + key + ">"
  }

  /** Apart from its first character, `</key>` holds no `<`. */
  lemma CloseTagShape(key: string, m: int)
    requires IsName(key) && 0 < m < |key| + 3
    ensures ("</" + key + ">")[m] != '<'
  {
    if 2 <= m < |key| + 2 {
      assert ("</" + key + ">")[m] == key[m - 2];
    }
  }

  /** In `<key>` + v + `</key>` + rest, where v holds no `</key>`, the first
      `</key>` is the one right after v. */
  lemma FirstCloseAfter(key: string, v: string, rest: string)
    requires IsName(key) && !Contains(v, "</" + key + ">")
    ensures FindSub("<" + key + ">" + v + "</" + key + ">" + rest, "</" + key + ">", 0) == Some(|key| + 2 + |v|)
  {
    var pat := "</" + key + ">";
    var t := "<" + key + ">" + v + "</" + key + ">" + rest;
    var c := |key| + 2 + |v|;
    ClosePieces(key, v, rest, t, pat);
    forall j | 0 <= j < c ensures !OccursAt(t, pat, j) {
      if j < |key| + 2 {
        NoCloseInOpen(key, t, pat, j);
      } else if j + |pat| <= c {
        NoCloseInValue(v, t, pat, |key| + 2, j);
      } else {
        NoCloseAcross(key, t, pat, c, j);
      }
    }
    var r := FindSub(t, pat, 0);
    assert r.Some?;
  }

  /** The layout of `<key>` + v + pat + rest. */
  lemma ClosePieces(key: string, v: string, rest: string, t: string, pat: string)
    requires pat == "</" + key + ">" && t == "<" + key + ">" + v + "</" + key + ">" + rest
    ensures |t| == |key| + 2 + |v| + |pat| + |rest|
    ensures t[0] == '<' && t[|key| + 1] == '>' && t[1..|key| + 1] == key
    ensures t[|key| + 2..|key| + 2 + |v|] == v
    ensures OccursAt(t, pat, |key| + 2 + |v|) && t[|key| + 2 + |v|] == '<'
  {
    assert t == "<" + key + ">" + v + pat + rest;
  }

  /** An occurrence that lies wholly inside a copy of v would be one in v. */
  lemma NoCloseInValue(v: string, t: string, pat: string, off: nat, j: int)
    requires off + |v| <= |t| && t[off..off + |v|] == v && !Contains(v, pat)
    requires off <= j && j + |pat| <= off + |v|
    ensures !OccursAt(t, pat, j)
  {
    var w := v[j - off..j - off + |pat|];
    forall m | 0 <= m < |pat| ensures t[j..j + |pat|][m] == w[m] {
      assert w[m] == t[off..off + |v|][j - off + m];
    }
    assert t[j..j + |pat|] == w;
    assert !OccursAt(v, pat, j - off);
  }

  /** An occurrence that starts before the `<` at `c` and reaches past it would
      have a `<` after its first character. */
  lemma NoCloseAcross(key: string, t: string, pat: string, c: nat, j: int)
    requires IsName(key) && pat == "</" + key + ">"
    requires c < |t| && t[c] == '<' && 0 <= j < c < j + |pat|
    ensures !OccursAt(t, pat, j)
  {
    if OccursAt(t, pat, j) {
      assert t[j..j + |pat|][c - j] == t[c];
      CloseTagShape(key, c - j);
    }
  }

  /** No `</key>` starts inside the opening tag `<key>`. */
  lemma NoCloseInOpen(key: string, t: string, pat: string, j: int)
    requires IsName(key) && pat == "</" + key + ">"
    requires |t| > |key| + 1 && t[0] == '<' && t[|key| + 1] == '>' && t[1..|key| + 1] == key
    requires 0 <= j < |key| + 2
    ensures !OccursAt(t, pat, j)
  {
    if j == 0 {
      assert t[1] == key[0];
    } else if j <= |key| {
      assert t[j] == key[j - 1];
    }
  }

  /** The head step on `<key>` + v + `</key>` + rest, where v holds no `</key>`:
      the key is `key`, the text between the tags is v, and decoding carries
      on with rest. */
  lemma HeadElement(key: string, v: string, rest: string)
    requires IsName(key) && !Contains(v, "</" + key + ">")
    ensures NextElement(Tagged(key, v) + rest) == Element(key, v, rest)
  {
    var t := "<" + key + ">" + v + "</" + key + ">" + rest;
    assert Tagged(key, v) + rest == t;
    FindOpenAtHead(key, v, rest);
    FirstCloseAfter(key, v, rest);
    HeadPieces(key, v, rest);
    StepFound(t, 0, |key| + 1, |key| + 2 + |v|, key, v, rest);
  }

  /** The opening-tag search on `<key>` + v + `</key>` + rest finds `<key>`
      at the head. */
  lemma FindOpenAtHead(key: string, v: string, rest: string)
    requires IsName(key)
    ensures var t := "<" + key + ">" + v + "</" + key + ">" + rest;
      var k: nat := |key| + 1;
      FindOpen(t, 0) == Some((0, k)) && t[1..k] == key
  {
    var t := "<" + key + ">" + v + "</" + key + ">" + rest;
    OpenTagPrefix(key, v + "</" + key + ">" + rest);
    assert t == "<" + key + ">" + (v + "</" + key + ">" + rest);
    FindOpenIsFirst(t, 0, |key| + 1);
  }

  /** Every opening tag the loop reads becomes a key of the result. */
  lemma StepKeyStored(tokens: string, output: map<string, Value>)
    requires tokens != [] && NextElement(tokens).Element?
    ensures NextElement(tokens).key in DecodeFrom(tokens, output)
  {
    var e := NextElement(tokens);
    DecodeStep(tokens, output);
    DecodeKeepsKeys(e.rest, Absorb(output, e.key, Strip(e.between)));
  }

  /** A run of elements `<k>v</k>`, one after the other. */
  function TaggedAll(es: seq<(string, string)>): string {
    if es == [] then [] else Tagged(es[0].0, es[0].1) + TaggedAll(es[1..])
  }

  /** On a run of elements, each a name whose value holds no closing tag of
      its own, the keys added are exactly the names of the elements. */
  lemma {:induction false} DecodeFromTaggedAllKeys(es: seq<(string, string)>, output: map<string, Value>)
    requires forall i | 0 <= i < |es| :: IsName(es[i].0) && !Contains(es[i].1, "</" + es[i].0 + ">")
    ensures DecodeFrom(TaggedAll(es), output).Keys == output.Keys + (set i | 0 <= i < |es| :: es[i].0)
    decreases |es|
  {
    if es != [] {
      var key, v := es[0].0, es[0].1;
      TaggedAllStep(es, output);
      DecodeFromTaggedAllKeys(es[1..], Absorb(output, key, Strip(v)));
      KeysOfTail(es);
    }
  }

  /** The first element of a run is one loop step. */
  lemma TaggedAllStep(es: seq<(string, string)>, output: map<string, Value>)
    requires es != [] && IsName(es[0].0) && !Contains(es[0].1, "</" + es[0].0 + ">")
    ensures DecodeFrom(TaggedAll(es), output) == DecodeFrom(TaggedAll(es[1..]), Absorb(output, es[0].0, Strip(es[0].1)))
    ensures Absorb(output, es[0].0, Strip(es[0].1)).Keys == output.Keys + {es[0].0}
  {
    HeadElement(es[0].0, es[0].1, TaggedAll(es[1..]));
    DecodeStep(TaggedAll(es), output);
  }

  lemma KeysOfTail(es: seq<(string, string)>)
    requires es != []
    ensures (set i | 0 <= i < |es| :: es[i].0) == {es[0].0} + (set i | 0 <= i < |es[1..]| :: es[1..][i].0)
  {
    forall i | 0 < i < |es| ensures es[i].0 == es[1..][i - 1].0 { }
  }

  /** The keys of the decoded record are the names of its elements. */
  lemma DecodeTaggedAllKeys(es: seq<(string, string)>)
    requires forall i | 0 <= i < |es| :: IsName(es[i].0) && !Contains(es[i].1, "</" + es[i].0 + ">")
    ensures Decode(TaggedAll(es)).Keys == set i | 0 <= i < |es| :: es[i].0
  {
    DecodeFromTaggedAllKeys(es, map[]);
  }

  /** Where the value and the rest sit in `<key>` + v + `</key>` + rest. */
  lemma HeadPieces(key: string, v: string, rest: string)
    ensures var t := "<" + key + ">" + v + "</" + key + ">" + rest;
      Slice(t, |key| + 2, |key| + 2 + |v|) == v && t[|key| + 2 + |v| + |key| + 3..] == rest
  {
    var t := "<" + key + ">" + v + "</" + key + ">" + rest;
    assert t == ("<" + key + ">") + v + ("</" + key + ">" + rest);
  }

  /** The opening tag `<key>` at the head of a string. */
  lemma OpenTagPrefix(key: string, tail: string)
    requires IsName(key)
    ensures OpenTagAt("<" + key + ">" + tail, 0, |key| + 1)
    ensures ("<" + key + ">" + tail)[1..|key| + 1] == key
  {
    var t := "<" + key + ">" + tail;
    forall m | 0 < m < |key| + 1 ensures t[m] == key[m - 1] {
    }
  }

  /** A head element whose stripped value holds no tag is stored as that
      string, replacing whatever the key held before. */
  lemma ScalarElement(key: string, v: string, rest: string, output: map<string, Value>)
    requires IsName(key) && !Contains(v, "</" + key + ">") && !HasLazyTag(Strip(v))
    ensures DecodeFrom(Tagged(key, v) + rest, output) == DecodeFrom(rest, output[key := Str(Strip(v))])
  {
    HeadElement(key, v, rest);
  }

  /** A head element whose stripped value holds a tag is decoded on its own
      and merged under the key. */
  lemma NestedElement(key: string, v: string, rest: string, output: map<string, Value>)
    requires IsName(key) && !Contains(v, "</" + key + ">") && HasLazyTag(Strip(v))
    ensures DecodeFrom(Tagged(key, v) + rest, output) == DecodeFrom(rest, MergeNested(output, key, Decode(Strip(v))))
  {
    HeadElement(key, v, rest);
  }

  // ---------------------------------------------------------------------------
  // Characteristic inputs
  // ---------------------------------------------------------------------------

  /** A scalar element of a plain value: neither the closing tag nor a `<...>`
      in the value. */
  predicate PlainScalar(key: string, v: string) {
    IsName(key) && !Contains(v, "</" + key + ">") && !HasLazyTag(Strip(v))
  }

  /** Two scalar elements with different keys give two string entries. */
  lemma {:induction false} TwoScalars(k1: string, v1: string, k2: string, v2: string)
    requires PlainScalar(k1, v1) && PlainScalar(k2, v2) && k1 != k2
    ensures Decode(Tagged(k1, v1) + Tagged(k2, v2)) == map[k1 := Str(Strip(v1)), k2 := Str(Strip(v2))]
  {
    ScalarElement(k1, v1, Tagged(k2, v2), map[]);
    assert Tagged(k2, v2) == Tagged(k2, v2) + [];
    ScalarElement(k2, v2, [], map[k1 := Str(Strip(v1))]);
  }

  /** A repeated scalar key keeps only the last value: no list is made. */
  lemma {:induction false} RepeatedScalar(key: string, v1: string, v2: string)
    requires PlainScalar(key, v1) && PlainScalar(key, v2)
    ensures Decode(Tagged(key, v1) + Tagged(key, v2)) == map[key := Str(Strip(v2))]
  {
    var first := map[key := Str(Strip(v1))];
    ScalarElement(key, v1, Tagged(key, v2), map[]);
    assert Tagged(key, v2) == Tagged(key, v2) + [];
    ScalarElement(key, v2, [], first);
    assert DecodeFrom([], first[key := Str(Strip(v2))]) == first[key := Str(Strip(v2))];
    OverwriteOnly(first, key, Str(Strip(v2)));
  }

  /** Storing under the only key of a record replaces the whole record. */
  lemma OverwriteOnly(m: map<string, Value>, key: string, x: Value)
    requires m.Keys == {key}
    ensures m[key := x] == map[key := x]
  {
  }

  lemma DecodeTwoScalars(t: string)
    requires t == "<a>1</a><b>2</b>"
    ensures Decode(t) == map["a" := Str("1"), "b" := Str("2")]
  {
    assert t == Tagged("a", "1") + Tagged("b", "2");
    assert Strip("1") == "1" && !HasLazyTag("1");
    assert Strip("2") == "2" && !HasLazyTag("2");
    TwoScalars("a", "1", "b", "2");
  }

  lemma DecodeRepeatedScalar(t: string)
    requires t == "<a>1</a><a>2</a>"
    ensures Decode(t) == map["a" := Str("2")]
  {
    assert t == Tagged("a", "1") + Tagged("a", "2");
    assert Strip("1") == "1" && !HasLazyTag("1");
    assert Strip("2") == "2" && !HasLazyTag("2");
    RepeatedScalar("a", "1", "2");
  }

  /** A nested element on its own gives one entry holding the decoded value. */
  lemma {:induction false} SingleNested(key: string, v: string)
    requires IsName(key) && !Contains(v, "</" + key + ">") && HasLazyTag(Strip(v))
    ensures Decode(Tagged(key, v)) == map[key := Map(Decode(Strip(v)))]
  {
    assert Tagged(key, v) == Tagged(key, v) + [];
    NestedElement(key, v, [], map[]);
    MergeFresh(key, Decode(Strip(v)));
  }

  /** Merging two records under a fresh key collects them in a list. */
  lemma MergeTwice(key: string, d1: map<string, Value>, d2: map<string, Value>)
    ensures MergeNested(MergeNested(map[], key, d1), key, d2) == map[key := List([Map(d1), Map(d2)])]
  {
    var first := MergeNested(map[], key, d1);
    assert first == map[key := Map(d1)];
    var r := MergeNested(first, key, d2);
    assert r.Keys == {key};
    assert Entries(r[key]) == [Map(d1), Map(d2)];
    assert r[key] == List([Map(d1), Map(d2)]);
  }

  /** A repeated key whose values hold tags collects the decoded records in a
      list, in input order. */
  lemma {:induction false} RepeatedNested(key: string, v1: string, v2: string)
    requires IsName(key) && !Contains(v1, "</" + key + ">") && HasLazyTag(Strip(v1))
    requires !Contains(v2, "</" + key + ">") && HasLazyTag(Strip(v2))
    ensures Decode(Tagged(key, v1) + Tagged(key, v2)) ==
      map[key := List([Map(Decode(Strip(v1))), Map(Decode(Strip(v2)))])]
  {
    var d1, d2 := Decode(Strip(v1)), Decode(Strip(v2));
    var first := MergeNested(map[], key, d1);
    NestedElement(key, v1, Tagged(key, v2), map[]);
    assert Tagged(key, v2) == Tagged(key, v2) + [];
    NestedElement(key, v2, [], first);
    assert DecodeFrom([], MergeNested(first, key, d2)) == MergeNested(first, key, d2);
    MergeTwice(key, d1, d2);
  }

  /** A scalar and then a nested element under one key give a list whose
      first entry is the string and whose second is the record. */
  lemma {:induction false} ScalarThenNested(key: string, v1: string, v2: string)
    requires PlainScalar(key, v1)
    requires !Contains(v2, "</" + key + ">") && HasLazyTag(Strip(v2))
    ensures Decode(Tagged(key, v1) + Tagged(key, v2)) ==
      map[key := List([Str(Strip(v1)), Map(Decode(Strip(v2)))])]
  {
    var d2 := Decode(Strip(v2));
    var first := map[key := Str(Strip(v1))];
    ScalarElement(key, v1, Tagged(key, v2), map[]);
    assert Tagged(key, v2) == Tagged(key, v2) + [];
    NestedElement(key, v2, [], first);
    assert DecodeFrom([], MergeNested(first, key, d2)) == MergeNested(first, key, d2);
    MergeOntoScalar(key, Str(Strip(v1)), d2);
  }

  /** Merging a record under a key that holds a string makes a two-entry list. */
  lemma MergeOntoScalar(key: string, x: Value, d: map<string, Value>)
    requires !x.List?
    ensures MergeNested(map[key := x], key, d) == map[key := List([x, Map(d)])]
  {
    var r := MergeNested(map[key := x], key, d);
    assert r.Keys == {key};
    assert Entries(r[key]) == [x, Map(d)];
  }

  lemma DecodeScalarThenNested(t: string)
    requires t == "<a>x</a><a><b>1</b></a>"
    ensures Decode(t) == map["a" := List([Str("x"), Map(map["b" := Str("1")])])]
  {
    var v := "<b>1</b>";
    assert t == Tagged("a", "x") + Tagged("a", v);
    assert PlainScalar("a", "x") && Strip("x") == "x" by {
      assert Strip("x") == "x" && !HasLazyTag("x");
    }
    DecodeScalarThenNestedValue(v);
    DecodeScalarThenNestedInner(v);
    ScalarThenNested("a", "x", v);
  }

  /** For `DecodeScalarThenNested`: the nested value `<b>1</b>` under key `a`. */
  lemma DecodeScalarThenNestedValue(v: string)
    requires v == "<b>1</b>"
    ensures !Contains(v, "</" + "a" + ">") && Strip(v) == v && HasLazyTag(v)
  {
    assert !Contains(v, "</a>") by {
      forall j ensures !OccursAt(v, "</a>", j) {
        if 0 <= j && j + 4 <= |v| {
          assert v[j..j + 4][2] == v[j + 2];
        }
      }
    }
    assert "</" + "a" + ">" == "</a>";
    assert Strip(v) == v;
    assert HasLazyTag(v) by {
      assert LazyTagAt(v, 0, 2);
    }
  }

  /** For `DecodeScalarThenNested`: the nested value decodes to `{b: "1"}`. */
  lemma DecodeScalarThenNestedInner(v: string)
    requires v == "<b>1</b>"
    ensures Decode(v) == map["b" := Str("1")]
  {
    assert v == Tagged("b", "1") + [];
    assert Strip("1") == "1" && !HasLazyTag("1");
    ScalarElement("b", "1", [], map[]);
  }

  /** An opening tag whose closing tag occurs nowhere after it ends decoding,
      keeping the record built so far. */
  lemma UnterminatedElement(key: string, v: string, output: map<string, Value>)
    requires IsName(key) && !Contains(v, "</" + key + ">")
    ensures DecodeFrom("<" + key + ">" + v, output) == output
  {
    var t := "<" + key + ">" + v;
    var k := |key| + 1;
    OpenTagPrefix(key, v);
    NoCloseAfterOpen(key, v);
    assert FirstOpenTagAt(t, 0, k) && !Contains(t, "</" + t[1..k] + ">");
    StopKeepsOutput(t, output);
  }

  /** No `</key>` in v means none in `<key>` + v either. */
  lemma NoCloseAfterOpen(key: string, v: string)
    requires IsName(key) && !Contains(v, "</" + key + ">")
    ensures !Contains("<" + key + ">" + v, "</" + key + ">")
  {
    var t := "<" + key + ">" + v;
    var pat := "</" + key + ">";
    forall j ensures !OccursAt(t, pat, j) {
      if j == 0 {
        assert t[1] == key[0];
      } else if 0 < j < |key| + 2 {
        assert t[j] == ("<" + key + ">")[j];
        if j <= |key| { assert t[j] == key[j - 1]; }
      } else if |key| + 2 <= j && j + |pat| <= |t| {
        assert t[j..j + |pat|] == v[j - |key| - 2..j - |key| - 2 + |pat|];
        assert !OccursAt(v, pat, j - |key| - 2);
      }
    }
  }


  /** An opening tag without its closing tag ends decoding with nothing stored. */
  lemma DecodeUnterminated(t: string)
    requires t == "<a>unterminated"
    ensures Decode(t) == map[]
  {
    assert t == "<" + "a" + ">" + "unterminated";
    assert forall m | 0 <= m < |"unterminated"| :: "unterminated"[m] != '/';
    forall j ensures !OccursAt("unterminated", "</a>", j) {
      if 0 <= j && j + 4 <= |"unterminated"| {
        assert "unterminated"[j..j + 4][1] == "unterminated"[j + 1];
      }
    }
    assert "</" + "a" + ">" == "</a>";
    UnterminatedElement("a", "unterminated", map[]);
  }

  /** No opening tag starts inside a closing tag. */
  lemma NoOpenInCloseTag(key: string, rest: string)
    requires IsName(key)
    ensures forall i, k | 0 <= i < |key| + 3 :: !OpenTagAt("</" + key + ">" + rest, i, k)
  {
    var t := "</" + key + ">" + rest;
    forall i, k | 0 <= i < |key| + 3 ensures !OpenTagAt(t, i, k) {
      if i == 0 {
        assert t[1] == '/';
      } else if i == 1 {
        assert t[1] == '/';
      } else if i < |key| + 2 {
        assert t[i] == key[i - 2];
      } else {
        assert t[i] == '>';
      }
    }
  }

  /** An opening tag stays one, with the same name, behind any prefix. */
  lemma OpenTagShift(pre: string, u: string, i: int, k: int)
    requires OpenTagAt(u, i, k)
    ensures OpenTagAt(pre + u, |pre| + i, |pre| + k)
    ensures (pre + u)[|pre| + i + 1..|pre| + k] == u[i + 1..k]
  {
    var t := pre + u;
    forall m | |pre| + i <= m <= |pre| + k ensures t[m] == u[m - |pre|] {
    }
  }

  /** The step on `</key><key>` + v finds the closing tag in front of the
      opening one: the value is empty and decoding resumes at `<key>`. */
  lemma CloseBeforeOpenStep(key: string, v: string)
    requires IsName(key)
    ensures NextElement("</" + key + ">" + ("<" + key + ">" + v)) == Element(key, [], "<" + key + ">" + v)
  {
    var pat := "</" + key + ">";
    var u := "<" + key + ">" + v;
    var t := pat + u;
    var o := |pat|;
    var k := o + |key| + 1;
    OpenTagPrefix(key, v);
    OpenTagShift(pat, u, 0, |key| + 1);
    NoOpenInCloseTag(key, u);
    FindOpenIsFirst(t, o, k);
    assert t[0..|pat|] == pat;
    assert OccursAt(t, pat, 0);
    assert FindSub(t, pat, 0) == Some(0);
    assert Slice(t, k + 1, 0) == [];
    assert t[0 + |key| + 3..] == u;
    StepFound(t, o, k, 0, key, [], u);
  }

  /** The closing tag is searched from the start of the remaining text, not
      after the opening tag: a `</key>` in front of `<key>` is taken as its
      closing tag, and the value between them is empty. */
  lemma CloseBeforeOpen(key: string, v: string)
    requires IsName(key) && !Contains(v, "</" + key + ">")
    ensures Decode("</" + key + ">" + ("<" + key + ">" + v)) == map[key := Str("")]
  {
    CloseBeforeOpenStep(key, v);
    assert Strip([]) == [] && !HasLazyTag([]);
    UnterminatedElement(key, v, map[key := Str([])]);
  }

  /** A closing tag alone holds no opening tag, so decoding it changes nothing. */
  lemma CloseTagAloneStops(key: string, output: map<string, Value>)
    requires IsName(key)
    ensures DecodeFrom("</" + key + ">", output) == output
  {
    NoOpenInCloseTag(key, []);
    assert "</" + key + ">" + [] == "</" + key + ">";
    assert NoOpenTag("</" + key + ">");
    StopKeepsOutput("</" + key + ">", output);
  }

  /** Same-name nesting is not balanced: the first `</key>` closes the outer
      `<key>`, so the value is the inner opening tag and what follows it, and
      the trailing `</key>` is ignored. */
  lemma {:induction false} SameNameNested(key: string, v: string)
    requires IsName(key) && !Contains(v, "</" + key + ">") && HasLazyTag(Strip(v))
    ensures Decode(Tagged(key, v) + ("</" + key + ">")) == map[key := Map(Decode(Strip(v)))]
  {
    NestedElement(key, v, "</" + key + ">", map[]);
    MergeFresh(key, Decode(Strip(v)));
    CloseTagAloneStops(key, map[key := Map(Decode(Strip(v)))]);
  }

  lemma DecodeSameNameNested(t: string)
    requires t == "<a><a>1</a></a>"
    ensures Decode(t) == map["a" := Map(map[])]
  {
    var v := "<a>1";
    assert t == Tagged("a", v) + ("</" + "a" + ">");
    DecodeSameNameNestedInner(v);
    SameNameNested("a", v);
  }

  /** For `DecodeSameNameNested`: the value `<a>1` holds a tag but no
      `</a>`, and decodes to nothing. */
  lemma DecodeSameNameNestedInner(v: string)
    requires v == "<a>1"
    ensures !Contains(v, "</" + "a" + ">") && HasLazyTag(Strip(v)) && Decode(Strip(v)) == map[]
  {
    assert !Contains(v, "</a>") by {
      forall j ensures !OccursAt(v, "</a>", j) {
        if 0 <= j && j + 4 <= |v| {
          assert v[j..j + 4][1] == v[1];
        }
      }
    }
    assert Strip(v) == v;
    assert LazyTagAt(v, 0, 2);
    assert v == "<" + "a" + ">" + "1";
    assert !Contains("1", "</a>");
    assert "</" + "a" + ">" == "</a>";
    UnterminatedElement("a", "1", map[]);
  }

  /** Merging a record under a key the output lacks stores it as is. */
  lemma MergeFresh(key: string, inner: map<string, Value>)
    ensures MergeNested(map[], key, inner) == map[key := Map(inner)]
  {
  }

  /** A nested record whose key repeats inside keeps the last inner value. */
  lemma DecodeNestedRepeat(t: string)
    requires t == "<a><b>1</b><b>2</b></a>"
    ensures Decode(t) == map["a" := Map(map["b" := Str("2")])]
  {
    var v := "<b>1</b><b>2</b>";
    assert t == Tagged("a", v);
    DecodeNestedRepeatOuter("a", v, map["b" := Str("2")]);
  }

  lemma InnerRepeat(v: string)
    requires v == "<b>1</b><b>2</b>"
    ensures Decode(v) == map["b" := Str("2")]
  {
    assert v == Tagged("b", "1") + Tagged("b", "2");
    assert Strip("1") == "1" && !HasLazyTag("1");
    assert Strip("2") == "2" && !HasLazyTag("2");
    RepeatedScalar("b", "1", "2");
  }

  /** For `DecodeNestedRepeat`: the outer element `<a><b>1</b><b>2</b></a>`
      alone, its value decoding to `inner`. */
  lemma DecodeNestedRepeatOuter(key: string, v: string, inner: map<string, Value>)
    requires key == "a" && v == "<b>1</b><b>2</b>" && inner == map["b" := Str("2")]
    ensures Decode(Tagged(key, v)) == map[key := Map(inner)]
  {
    assert !Contains(v, "</a>") by {
      forall j ensures !OccursAt(v, "</a>", j) {
        if 0 <= j && j + 4 <= |v| {
          assert v[j..j + 4][2] == v[j + 2];
        }
      }
    }
    assert Strip(v) == v;
    assert HasLazyTag(v) by {
      assert LazyTagAt(v, 0, 2);
    }
    assert "</" + key + ">" == "</a>";
    SingleNested(key, v);
    InnerRepeat(v);
  }

  // ---------------------------------------------------------------------------
  // Clean-up
  // ---------------------------------------------------------------------------

  /** The clean-up deletes the markers, then the leftmost `<...>` tag of what
      remains wherever it stands, keeping the text before and after it, and
      then trims. Here that tag is `tag`, and `pre` holds no `<`. */
  lemma CleanupCutsFirstTag(raw: string, markers: Markers, pre: string, tag: string, post: string)
    requires RemoveAll(RemoveAll(raw, markers.eos), markers.pad) == pre + tag + post
    requires |tag| >= 2 && LazyTagAt(tag, 0, |tag| - 1)
    requires '<' !in pre
    ensures Cleanup(raw, markers) == Strip(pre + post)
  {
    var m := pre + tag + post;
    var n := |pre|;
    var e := n + |tag| - 1;
    TagInside(pre, tag, post);
    forall i', j' | 0 <= i' < n ensures !LazyTagAt(m, i', j') {
      assert m[i'] == pre[i'];
    }
    assert FirstLazyTagAt(m, n, e);
    assert m[..n] + m[e + 1..] == pre + post;
  }

  /** A tag standing alone is a tag in any text it is spliced into. */
  lemma TagInside(pre: string, tag: string, post: string)
    requires |tag| >= 2 && LazyTagAt(tag, 0, |tag| - 1)
    ensures LazyTagAt(pre + tag + post, |pre|, |pre| + |tag| - 1)
  {
    var m := pre + tag + post;
    forall q | |pre| <= q < |pre| + |tag| ensures m[q] == tag[q - |pre|] {
    }
  }

  /** With no marker in the text and the prompt tag in front, the clean-up
      leaves exactly the trimmed rest. */
  lemma CleanupDropsPrompt(p: string, body: string, markers: Markers)
    requires |p| >= 2 && LazyTagAt(p, 0, |p| - 1)
    requires markers.eos == [] || !Contains(p + body, markers.eos)
    requires markers.pad == [] || !Contains(p + body, markers.pad)
    ensures Cleanup(p + body, markers) == Strip(body)
  {
    assert RemoveAll(RemoveAll(p + body, markers.eos), markers.pad) == [] + p + body;
    CleanupCutsFirstTag(p + body, markers, [], p, body);
    assert [] + body == body;
  }

  /** The deleted tag need not be a prompt: in
      `<item><name>Bolt</name></item>` the outer wrapper tag goes, its closing
      tag stays, and decoding skips that stray closing tag, giving
      `{name: "Bolt"}`. */
  lemma WrapperTagDropped(w: string, key: string, v: string, markers: Markers)
    requires IsName(w) && PlainScalar(key, v)
    requires markers.eos == [] || !Contains(("<" + w + ">") + Tagged(key, v) + ("</" + w + ">"), markers.eos)
    requires markers.pad == [] || !Contains(("<" + w + ">") + Tagged(key, v) + ("</" + w + ">"), markers.pad)
    ensures Decode(Cleanup(("<" + w + ">") + Tagged(key, v) + ("</" + w + ">"), markers)) == map[key := Str(Strip(v))]
  {
    var close := "</" + w + ">";
    var body := Tagged(key, v) + close;
    assert ("<" + w + ">") + Tagged(key, v) + close == ("<" + w + ">") + body;
    assert body[0] == '<' && body[|body| - 1] == '>';
    WrapperCleanup(w, body, markers);
    ScalarElement(key, v, "</" + w + ">", map[]);
    CloseTagAloneStops(w, map[key := Str(Strip(v))]);
  }

  /** Clean-up of `<w>` + body, for a body that starts with `<` and ends with
      `>`, is the body. */
  lemma WrapperCleanup(w: string, body: string, markers: Markers)
    requires IsName(w) && |body| > 0 && body[0] == '<' && body[|body| - 1] == '>'
    requires markers.eos == [] || !Contains(("<" + w + ">") + body, markers.eos)
    requires markers.pad == [] || !Contains(("<" + w + ">") + body, markers.pad)
    ensures Cleanup(("<" + w + ">") + body, markers) == body
  {
    OpenTagIsLazyTag(w);
    CleanupDropsPrompt("<" + w + ">", body, markers);
    StripKeepsTrimmed(body);
  }

  /** `<w>` for a tag name `w` is also a match of `<.*?>`. */
  lemma OpenTagIsLazyTag(w: string)
    requires IsName(w)
    ensures LazyTagAt(("<" + w + ">"), 0, |("<" + w + ">")| - 1)
  {
    var p := ("<" + w + ">");
    forall m | 0 < m < |p| - 1 ensures p[m] == w[m - 1] && IsNameChar(p[m]) {
    }
  }

  /** Markers are deleted in one left-to-right pass, so deleting one can join
      the pieces of another that the result still holds. */
  lemma MarkerCanReappear(s: string, eos: string)
    requires s == "<</s>/s>" && eos == "</s>"
    ensures RemoveAll(s, eos) == eos
  {
    assert s[..4][1] != eos[1];
    assert RemoveFrom(s, eos) == [s[0]] + RemoveFrom(s[1..], eos);
    assert s[1..][..4] == eos;
    assert s[1..][4..] == "/s>";
    assert RemoveFrom(s[1..], eos) == RemoveFrom("/s>", eos);
    assert RemoveFrom("/s>", eos) == "/s>";
  }
}
