/**
  `ReceiptPipeline.process` (src/pipeline.py), without the models: the
  detections, the text the OCR engine reads in a box, the raw sequence the
  table decoder produces for a crop and the image size are inputs. The loop
  routes header detections (class 0) through the PO scorer and collects
  table detections (class 1); the best header candidate is chosen with a
  stable descending sort; the table boxes are merged into one padded crop
  whose decoded record becomes the result, to which the PO number and the
  debug image are added.
 */
module Pipeline {
  import opened Extractor
  import Ocr

  // ---------------------------------------------------------------------------
  // Data
  // ---------------------------------------------------------------------------

  /** A pixel box `[x1, y1, x2, y2]`. */
  datatype Box = Box(x1: int, y1: int, x2: int, y2: int)

  /** One detector result: class, confidence and box. */
  datatype Detection = Detection(classId: int, conf: real, bbox: Box)

  /** A scored header reading. */
  datatype Candidate = Candidate(text: string, score: int, bbox: Box)

  /** A value of the returned record: a decoded value (the PO number is a
      string value) or the annotated debug image, which is not modelled. */
  datatype Entry = Field(value: Value) | DebugImage

  const HeaderClass := 0
  const TableClass := 1
  const PadX := 20
  const PadY := 10
  const NotDetected := "Not Detected"
  const NoTableMessage := "No table detected"
  const ErrorKey := "error"
  const PoKey := "po_number"
  const ImageKey := "debug_image"

  // ---------------------------------------------------------------------------
  // Routing (lines 46-64)
  // ---------------------------------------------------------------------------

  /** The candidate a single detection contributes: header detections whose
      text scores above 0. */
  function CandidatesOf(det: Detection, read: Box -> string): seq<Candidate> {
    if det.classId == HeaderClass && Ocr.ValidatePo(read(det.bbox)) > 0 then
      [Candidate(read(det.bbox), Ocr.ValidatePo(read(det.bbox)), det.bbox)]
    else []
  }

  /** `po_candidates` after the loop has seen `dets`. */
  function Candidates(dets: seq<Detection>, read: Box -> string): seq<Candidate> {
    if dets == [] then []
    else Candidates(dets[..|dets| - 1], read) + CandidatesOf(dets[|dets| - 1], read)
  }

  /** `table_boxes` after the loop has seen `dets`. */
  function TableBoxes(dets: seq<Detection>): seq<Box> {
    if dets == [] then []
    else TableBoxes(dets[..|dets| - 1]) + (if dets[|dets| - 1].classId == TableClass then [dets[|dets| - 1].bbox] else [])
  }

  /** One turn of the routing loop extends both lists by what detection `i`
      contributes. */
  lemma RouteStep(dets: seq<Detection>, i: int, read: Box -> string)
    requires 0 <= i < |dets|
    ensures Candidates(dets[..i + 1], read) == Candidates(dets[..i], read) + CandidatesOf(dets[i], read)
    ensures TableBoxes(dets[..i + 1]) == TableBoxes(dets[..i]) + (if dets[i].classId == TableClass then [dets[i].bbox] else [])
  {
    assert dets[..i + 1][..i] == dets[..i];
  }

  // ---------------------------------------------------------------------------
  // Selection of the PO number (lines 67-70)
  // ---------------------------------------------------------------------------

  predicate Descending(s: seq<Candidate>) {
    forall i, j | 0 <= i < j < |s| :: s[i].score >= s[j].score
  }

  /** Where a stable descending insertion places `x`: before the first
      element that does not score higher, or at the end. */
  function InsertPos(x: Candidate, s: seq<Candidate>): (p: nat)
    ensures p <= |s|
    ensures forall q | 0 <= q < p :: s[q].score > x.score
    ensures p < |s| ==> s[p].score <= x.score
  {
    if s == [] || s[0].score <= x.score then 0
    else
      var p := InsertPos(x, s[1..]);
      assert forall q | 1 <= q < p + 1 :: s[q] == s[1..][q - 1];
      1 + p
  }

  /** Insert `x` in front of the first element that does not score higher. */
  function InsertDesc(x: Candidate, s: seq<Candidate>): (r: seq<Candidate>)
    ensures r == s[..InsertPos(x, s)] + [x] + s[InsertPos(x, s)..]
    ensures multiset(r) == multiset(s) + multiset{x} && |r| == |s| + 1
  {
    InsertMultiset(x, s, InsertPos(x, s));
    if s == [] || s[0].score <= x.score then
      assert s[..0] == [] && s[0..] == s;
      [x] + s
    else
      var t := InsertDesc(x, s[1..]);
      InsertBehind(x, s, t);
      [s[0]] + t
  }

  lemma InsertMultiset(x: Candidate, s: seq<Candidate>, p: nat)
    requires p <= |s|
    ensures multiset(s[..p] + [x] + s[p..]) == multiset(s) + multiset{x}
    ensures |s[..p] + [x] + s[p..]| == |s| + 1
  {
    assert s == s[..p] + s[p..];
  }

  /** Inserting behind a head that scores higher. */
  lemma InsertBehind(x: Candidate, s: seq<Candidate>, t: seq<Candidate>)
    requires s != [] && s[0].score > x.score
    requires t == s[1..][..InsertPos(x, s[1..])] + [x] + s[1..][InsertPos(x, s[1..])..]
    ensures [s[0]] + t == s[..InsertPos(x, s)] + [x] + s[InsertPos(x, s)..]
  {
    var p := InsertPos(x, s[1..]);
    var tail := s[1..];
    assert InsertPos(x, s) == p + 1;
    assert s == [s[0]] + tail;
    assert s[..p + 1] == [s[0]] + tail[..p];
    assert s[p + 1..] == tail[p..];
  }

  /** Insertion keeps a descending sequence descending. */
  lemma InsertDescSorted(x: Candidate, s: seq<Candidate>)
    requires Descending(s)
    ensures Descending(InsertDesc(x, s))
  {
    var p := InsertPos(x, s);
    var r := s[..p] + [x] + s[p..];
    forall i, j | 0 <= i < j < |r| ensures r[i].score >= r[j].score {
      InsertedIndex(x, s, p, i);
      InsertedIndex(x, s, p, j);
    }
  }

  /** The element at index `k` after inserting `x` at index `p`. */
  lemma InsertedIndex(x: Candidate, s: seq<Candidate>, p: nat, k: nat)
    requires p <= |s| && k <= |s|
    ensures (s[..p] + [x] + s[p..])[k] == if k < p then s[k] else if k == p then x else s[k - 1]
  {
  }

  /** `sorted(c, key=score, reverse=True)`: an insertion sort from the back,
      so that of two equal scores the earlier candidate stays in front. */
  function SortDesc(c: seq<Candidate>): (r: seq<Candidate>)
    ensures multiset(r) == multiset(c) && |r| == |c|
    ensures Descending(r)
  {
    if c == [] then []
    else
      assert c == [c[0]] + c[1..];
      InsertDescSorted(c[0], SortDesc(c[1..]));
      InsertDesc(c[0], SortDesc(c[1..]))
  }

  /** `final_po`. */
  function SelectPo(c: seq<Candidate>): string {
    if c == [] then NotDetected else SortDesc(c)[0].text
  }

  /** `c[i]` has the highest score and every earlier candidate scores lower. */
  ghost predicate IsFirstMax(c: seq<Candidate>, i: int) {
    0 <= i < |c| &&
    (forall j | 0 <= j < |c| :: c[j].score <= c[i].score) &&
    (forall j | 0 <= j < i :: c[j].score < c[i].score)
  }

  // ---------------------------------------------------------------------------
  // Union, padding and clamping of the table boxes (lines 76-87)
  // ---------------------------------------------------------------------------

  datatype Side = X1 | Y1 | X2 | Y2

  function Get(b: Box, side: Side): int {
    match side
    case X1 => b.x1
    case Y1 => b.y1
    case X2 => b.x2
    case Y2 => b.y2
  }

  /** `inner` lies inside `outer`. */
  predicate Within(inner: Box, outer: Box) {
    outer.x1 <= inner.x1 && outer.y1 <= inner.y1 && inner.x2 <= outer.x2 && inner.y2 <= outer.y2
  }

  /** `min([b[side] for b in bs])`. */
  function MinOf(bs: seq<Box>, side: Side): (m: int)
    requires bs != []
    ensures forall i | 0 <= i < |bs| :: m <= Get(bs[i], side)
    ensures exists i | 0 <= i < |bs| :: m == Get(bs[i], side)
  {
    if |bs| == 1 then Get(bs[0], side)
    else
      var rest := MinOf(bs[1..], side);
      assert forall i | 1 <= i < |bs| :: bs[i] == bs[1..][i - 1];
      if Get(bs[0], side) <= rest then Get(bs[0], side) else rest
  }

  /** `max([b[side] for b in bs])`. */
  function MaxOf(bs: seq<Box>, side: Side): (m: int)
    requires bs != []
    ensures forall i | 0 <= i < |bs| :: Get(bs[i], side) <= m
    ensures exists i | 0 <= i < |bs| :: m == Get(bs[i], side)
  {
    if |bs| == 1 then Get(bs[0], side)
    else
      var rest := MaxOf(bs[1..], side);
      assert forall i | 1 <= i < |bs| :: bs[i] == bs[1..][i - 1];
      if Get(bs[0], side) >= rest then Get(bs[0], side) else rest
  }

  /** The union box `(ux1, uy1, ux2, uy2)`. */
  function Union(bs: seq<Box>): (u: Box)
    requires bs != []
    ensures forall i | 0 <= i < |bs| :: Within(bs[i], u)
    ensures exists i | 0 <= i < |bs| :: u.x1 == bs[i].x1
    ensures exists i | 0 <= i < |bs| :: u.y1 == bs[i].y1
    ensures exists i | 0 <= i < |bs| :: u.x2 == bs[i].x2
    ensures exists i | 0 <= i < |bs| :: u.y2 == bs[i].y2
  {
    Box(MinOf(bs, X1), MinOf(bs, Y1), MaxOf(bs, X2), MaxOf(bs, Y2))
  }

  function Max(a: int, b: int): int { if a >= b then a else b }
  function Min(a: int, b: int): int { if a <= b then a else b }

  /** `crop_box`: the union grown by the pads, clamped at 0 on the low side
      and at the image size on the high side. */
  function CropBox(u: Box, padX: int, padY: int, width: int, height: int): (c: Box)
    ensures 0 <= c.x1 && 0 <= c.y1 && c.x2 <= width && c.y2 <= height
  {
    Box(Max(0, u.x1 - padX), Max(0, u.y1 - padY), Min(width, u.x2 + padX), Min(height, u.y2 + padY))
  }

  // ---------------------------------------------------------------------------
  // The returned record (lines 74-99)
  // ---------------------------------------------------------------------------

  /** A decoded record as entries of the returned record. */
  function Fields(m: map<string, Value>): map<string, Entry>
  {
    map k | k in m :: Field(m[k])
  }

  /** The crop the table decoder reads. */
  function TableCrop(boxes: seq<Box>, width: int, height: int): Box
    requires boxes != []
  {
    CropBox(Union(boxes), PadX, PadY, width, height)
  }

  /** `final_json` before the two keys are added. */
  function TableRecord(boxes: seq<Box>, raw: Box -> string, width: int, height: int, markers: Markers): map<string, Entry> {
    if boxes == [] then map[ErrorKey := Field(Str(NoTableMessage))]
    else Fields(Decode(Cleanup(raw(TableCrop(boxes, width, height)), markers)))
  }

  /** Lines 98-99. */
  function Assemble(record: map<string, Entry>, po: string): map<string, Entry> {
    record[PoKey := Field(Str(po))][ImageKey := DebugImage]
  }

  /** The two added keys are always present, with the selected PO number and
      the debug image, overriding the record; every other key of the record
      keeps its value. */
  lemma AssembleKeys(record: map<string, Entry>, po: string)
    ensures Assemble(record, po).Keys == record.Keys + {PoKey, ImageKey}
    ensures Assemble(record, po)[PoKey] == Field(Str(po))
    ensures Assemble(record, po)[ImageKey] == DebugImage
    ensures forall k | k in record && k != PoKey && k != ImageKey :: Assemble(record, po)[k] == record[k]
  {
  }

  /** What `process` returns. */
  function Outcome(dets: seq<Detection>, read: Box -> string, raw: Box -> string,
                   width: int, height: int, markers: Markers): map<string, Entry> {
    Assemble(TableRecord(TableBoxes(dets), raw, width, height, markers), SelectPo(Candidates(dets, read)))
  }

  /** `ReceiptPipeline.process`, with `read(b)` the OCR text of box `b` and
      `raw(b)` the decoder's raw output for crop `b`. */
  method Process(detections: seq<Detection>, read: Box -> string, raw: Box -> string,
                 width: int, height: int, markers: Markers)
    returns (finalJson: map<string, Entry>)
    ensures finalJson == Outcome(detections, read, raw, width, height, markers)
  {
    var poCandidates: seq<Candidate> := [];
    var tableBoxes: seq<Box> := [];
    for i := 0 to |detections|
      invariant poCandidates == Candidates(detections[..i], read)
      invariant tableBoxes == TableBoxes(detections[..i])
    {
      var det := detections[i];
      RouteStep(detections, i, read);
      if det.classId == HeaderClass {
        var text := read(det.bbox);
        var score := Ocr.ValidatePo(text);
        assert CandidatesOf(det, read) == if score > 0 then [Candidate(text, score, det.bbox)] else [];
        if score > 0 {
          poCandidates := poCandidates + [Candidate(text, score, det.bbox)];
        }
      } else if det.classId == TableClass {
        tableBoxes := tableBoxes + [det.bbox];
      }
    }
    assert detections[..|detections|] == detections;
    ghost var po := SelectPo(Candidates(detections, read));
    ghost var table := TableRecord(TableBoxes(detections), raw, width, height, markers);

    var finalPo := NotDetected;
    if poCandidates != [] {
      var best := SortDesc(poCandidates)[0];
      finalPo := best.text;
    }
    assert finalPo == po;

    if tableBoxes != [] {
      var cropBox := CropBox(Union(tableBoxes), PadX, PadY, width, height);
      assert cropBox == TableCrop(tableBoxes, width, height);
      var record := ExtractTable(raw(cropBox), markers);
      finalJson := Fields(record);
      assert finalJson == table;
    } else {
      finalJson := map[ErrorKey := Field(Str(NoTableMessage))];
      assert finalJson == table;
    }

    ghost var mid := finalJson;
    finalJson := finalJson[PoKey := Field(Str(finalPo))];
    finalJson := finalJson[ImageKey := DebugImage];
    assert finalJson == mid[PoKey := Field(Str(po))][ImageKey := DebugImage];
    assert Assemble(table, po) == table[PoKey := Field(Str(po))][ImageKey := DebugImage];
  }
}
