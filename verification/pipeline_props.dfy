/**
  Properties of the pipeline model: how detections are routed, which
  candidate is selected, where the table crop lies and what the returned
  record holds.
 */
module PipelineProps {
  import opened Extractor
  import Ocr
  import opened Pipeline

  // ---------------------------------------------------------------------------
  // Routing
  // ---------------------------------------------------------------------------

  /** The candidates of a concatenation are those of each part, in order. */
  lemma {:induction false} CandidatesSplit(a: seq<Detection>, b: seq<Detection>, read: Box -> string)
    ensures Candidates(a + b, read) == Candidates(a, read) + Candidates(b, read)
    decreases |b|
  {
    if b == [] {
      assert a + b == a;
    } else {
      var b' := b[..|b| - 1];
      assert (a + b)[..|a + b| - 1] == a + b';
      CandidatesSplit(a, b', read);
    }
  }

  /** The table boxes of a concatenation are those of each part, in order. */
  lemma {:induction false} TableBoxesSplit(a: seq<Detection>, b: seq<Detection>)
    ensures TableBoxes(a + b) == TableBoxes(a) + TableBoxes(b)
    decreases |b|
  {
    if b == [] {
      assert a + b == a;
    } else {
      var b' := b[..|b| - 1];
      assert (a + b)[..|a + b| - 1] == a + b';
      TableBoxesSplit(a, b');
    }
  }

  /** Every candidate is a header detection whose OCR text scored above 0,
      with that text and that score. */
  lemma {:induction false} CandidatesSound(dets: seq<Detection>, read: Box -> string)
    ensures forall k | 0 <= k < |Candidates(dets, read)| ::
      var c := Candidates(dets, read)[k];
      c.score > 0 && c.text == read(c.bbox) && c.score == Ocr.ValidatePo(c.text) &&
      exists i | 0 <= i < |dets| :: dets[i].classId == HeaderClass && dets[i].bbox == c.bbox
    decreases |dets|
  {
    if dets != [] {
      var init := dets[..|dets| - 1];
      CandidatesSound(init, read);
      forall k | 0 <= k < |Candidates(dets, read)|
        ensures exists i | 0 <= i < |dets| :: dets[i].classId == HeaderClass && dets[i].bbox == Candidates(dets, read)[k].bbox
      {
        if k < |Candidates(init, read)| {
          var i :| 0 <= i < |init| && init[i].classId == HeaderClass && init[i].bbox == Candidates(init, read)[k].bbox;
          assert dets[i] == init[i];
        } else {
          assert dets[|dets| - 1].classId == HeaderClass;
        }
      }
    }
  }

  /** Every header detection whose OCR text scores above 0 is a candidate. */
  lemma {:induction false} CandidatesComplete(dets: seq<Detection>, read: Box -> string)
    ensures forall i | 0 <= i < |dets| && dets[i].classId == HeaderClass && Ocr.ValidatePo(read(dets[i].bbox)) > 0 ::
      Candidate(read(dets[i].bbox), Ocr.ValidatePo(read(dets[i].bbox)), dets[i].bbox) in Candidates(dets, read)
    decreases |dets|
  {
    if dets != [] {
      var init := dets[..|dets| - 1];
      CandidatesComplete(init, read);
      forall i | 0 <= i < |dets| && dets[i].classId == HeaderClass && Ocr.ValidatePo(read(dets[i].bbox)) > 0
        ensures Candidate(read(dets[i].bbox), Ocr.ValidatePo(read(dets[i].bbox)), dets[i].bbox) in Candidates(dets, read)
      {
        if i < |init| {
          assert dets[i] == init[i];
        }
      }
    }
  }

  /** The table boxes are exactly the boxes of the table detections. */
  lemma {:induction false} TableBoxesExact(dets: seq<Detection>, b: Box)
    ensures b in TableBoxes(dets) <==> exists i | 0 <= i < |dets| :: dets[i].classId == TableClass && dets[i].bbox == b
    decreases |dets|
  {
    if dets != [] {
      var init := dets[..|dets| - 1];
      TableBoxesExact(init, b);
      if exists i | 0 <= i < |init| :: init[i].classId == TableClass && init[i].bbox == b {
        var i :| 0 <= i < |init| && init[i].classId == TableClass && init[i].bbox == b;
        assert dets[i] == init[i];
      }
      if exists i | 0 <= i < |dets| :: dets[i].classId == TableClass && dets[i].bbox == b {
        var i :| 0 <= i < |dets| && dets[i].classId == TableClass && dets[i].bbox == b;
        if i < |init| {
          assert init[i] == dets[i];
        }
      }
    }
  }

  /** A detection of neither class contributes no candidate. */
  lemma OtherClassNoCandidate(a: seq<Detection>, d: Detection, b: seq<Detection>, read: Box -> string)
    requires d.classId != HeaderClass
    ensures Candidates(a + [d] + b, read) == Candidates(a + b, read)
  {
    assert Candidates([d], read) == [] by {
      assert [d][..0] == [];
      assert CandidatesOf(d, read) == [];
    }
    CandidatesSplit(a + [d], b, read);
    CandidatesSplit(a, [d], read);
    CandidatesSplit(a, b, read);
  }

  /** A detection that is not a table contributes no table box. */
  lemma OtherClassNoTableBox(a: seq<Detection>, d: Detection, b: seq<Detection>)
    requires d.classId != TableClass
    ensures TableBoxes(a + [d] + b) == TableBoxes(a + b)
  {
    assert TableBoxes([d]) == [] by {
      assert [d][..0] == [];
    }
    TableBoxesSplit(a + [d], b);
    TableBoxesSplit(a, [d]);
    TableBoxesSplit(a, b);
  }

  /** So such a detection does not change the returned record. */
  lemma OtherClassIgnored(a: seq<Detection>, d: Detection, b: seq<Detection>,
                          read: Box -> string, raw: Box -> string, width: int, height: int, markers: Markers)
    requires d.classId != HeaderClass && d.classId != TableClass
    ensures Outcome(a + [d] + b, read, raw, width, height, markers) == Outcome(a + b, read, raw, width, height, markers)
  {
    OtherClassNoCandidate(a, d, b, read);
    OtherClassNoTableBox(a, d, b);
  }

  // ---------------------------------------------------------------------------
  // Selection
  // ---------------------------------------------------------------------------

  /** The earliest maximum of `c` from that of `c[1..]`. */
  lemma FirstMaxCons(c: seq<Candidate>, i: int)
    requires |c| > 1 && IsFirstMax(c[1..], i)
    ensures c[i + 1].score <= c[0].score ==> IsFirstMax(c, 0)
    ensures c[i + 1].score > c[0].score ==> IsFirstMax(c, i + 1)
  {
    assert forall j | 1 <= j < |c| :: c[j] == c[1..][j - 1];
  }

  /** The head of the stable descending sort is the earliest candidate with
      the highest score. */
  lemma {:induction false} SortHead(c: seq<Candidate>)
    requires c != []
    ensures exists i :: IsFirstMax(c, i) && SortDesc(c)[0] == c[i]
  {
    if |c| == 1 {
      assert IsFirstMax(c, 0);
    } else {
      SortHead(c[1..]);
      var i :| IsFirstMax(c[1..], i) && SortDesc(c[1..])[0] == c[1..][i];
      assert c[1..][i] == c[i + 1];
      FirstMaxCons(c, i);
      assert SortDesc(c) == InsertDesc(c[0], SortDesc(c[1..]));
      if c[i + 1].score <= c[0].score {
        assert IsFirstMax(c, 0) && SortDesc(c)[0] == c[0];
      } else {
        assert IsFirstMax(c, i + 1) && SortDesc(c)[0] == c[i + 1];
      }
    }
  }

  /** The selected PO number is "Not Detected" without candidates, and the
      text of the earliest best-scoring candidate otherwise. */
  lemma SelectPoIsFirstMax(c: seq<Candidate>)
    ensures c == [] ==> SelectPo(c) == NotDetected
    ensures c != [] ==> exists i :: IsFirstMax(c, i) && SelectPo(c) == c[i].text
  {
    if c != [] {
      SortHead(c);
    }
  }

  // ---------------------------------------------------------------------------
  // Union and crop
  // ---------------------------------------------------------------------------

  /** The union is the smallest box containing every table box. */
  lemma UnionLeast(bs: seq<Box>, o: Box)
    requires bs != [] && forall i | 0 <= i < |bs| :: Within(bs[i], o)
    ensures Within(Union(bs), o)
  {
    var u := Union(bs);
    var i1 :| 0 <= i1 < |bs| && u.x1 == bs[i1].x1;
    var i2 :| 0 <= i2 < |bs| && u.y1 == bs[i2].y1;
    var i3 :| 0 <= i3 < |bs| && u.x2 == bs[i3].x2;
    var i4 :| 0 <= i4 < |bs| && u.y2 == bs[i4].y2;
    assert Within(bs[i1], o) && Within(bs[i2], o) && Within(bs[i3], o) && Within(bs[i4], o);
  }

  /** With non-negative pads and a union inside the image, the crop contains
      the union and lies inside the image. */
  lemma CropContainsUnion(u: Box, padX: int, padY: int, width: int, height: int)
    requires 0 <= padX && 0 <= padY
    requires 0 <= u.x1 <= u.x2 <= width && 0 <= u.y1 <= u.y2 <= height
    ensures Within(u, CropBox(u, padX, padY, width, height))
    ensures Within(CropBox(u, padX, padY, width, height), Box(0, 0, width, height))
  {
  }

  /** Two overlapping boxes, pads (2, 1) and a 100 by 100 image. */
  lemma CropExample(bs: seq<Box>)
    requires bs == [Box(0, 0, 10, 10), Box(5, 5, 20, 20)]
    ensures CropBox(Union(bs), 2, 1, 100, 100) == Box(0, 0, 22, 21)
  {
    assert bs[1..] == [Box(5, 5, 20, 20)];
  }

  // ---------------------------------------------------------------------------
  // The returned record
  // ---------------------------------------------------------------------------

  /** Without table boxes the record is the placeholder plus the two added
      keys, whatever the decoder would have produced. */
  lemma NoTableOutcome(dets: seq<Detection>, read: Box -> string, raw: Box -> string,
                       width: int, height: int, markers: Markers)
    requires TableBoxes(dets) == []
    ensures Outcome(dets, read, raw, width, height, markers) ==
      map[ErrorKey := Field(Str(NoTableMessage)), PoKey := Field(Str(SelectPo(Candidates(dets, read)))), ImageKey := DebugImage]
  {
  }

  /** The decoder is consulted only for the table crop. */
  lemma DecoderOnlyAtCrop(dets: seq<Detection>, read: Box -> string, raw1: Box -> string, raw2: Box -> string,
                          width: int, height: int, markers: Markers)
    requires TableBoxes(dets) != [] ==> raw1(TableCrop(TableBoxes(dets), width, height)) == raw2(TableCrop(TableBoxes(dets), width, height))
    ensures Outcome(dets, read, raw1, width, height, markers) == Outcome(dets, read, raw2, width, height, markers)
  {
  }

  /** With table boxes, every decoded key other than the two added ones keeps
      its decoded value; `po_number` is always the selected PO number. */
  lemma DecodedKeysKept(dets: seq<Detection>, read: Box -> string, raw: Box -> string,
                        width: int, height: int, markers: Markers)
    requires TableBoxes(dets) != []
    ensures var record := Decode(Cleanup(raw(TableCrop(TableBoxes(dets), width, height)), markers));
      var r := Outcome(dets, read, raw, width, height, markers);
      r.Keys == record.Keys + {PoKey, ImageKey} &&
      r[PoKey] == Field(Str(SelectPo(Candidates(dets, read)))) &&
      forall k | k in record && k != PoKey && k != ImageKey :: r[k] == Field(record[k])
  {
    var record := Decode(Cleanup(raw(TableCrop(TableBoxes(dets), width, height)), markers));
    var table := TableRecord(TableBoxes(dets), raw, width, height, markers);
    assert table == Fields(record);
    assert table.Keys == record.Keys;
    AssembleKeys(table, SelectPo(Candidates(dets, read)));
  }
}
