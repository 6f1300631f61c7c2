/**
  `TextReader.validate_po` (src/modules/ocr.py): the plausibility score of a
  piece of header text as a purchase-order number. The rules are tried in
  order and the first that applies decides: a banned word vetoes (0), a run of
  five order-number characters scores 100, a run of four digits scores 50,
  anything else 0. Text is ASCII: case mapping and `\d` act on ASCII only.
 */
module Ocr {
  import opened PyText

  // ---------------------------------------------------------------------------
  // Upper-casing
  // ---------------------------------------------------------------------------

  /** `c.upper()` for an ASCII character: the n-th lower-case letter becomes
      the n-th upper-case letter, and other characters are kept. */
  function UpperChar(c: char): (u: char)
    ensures 'a' <= c <= 'z' ==> u == "ABCDEFGHIJKLMNOPQRSTUVWXYZ"[c as int - 'a' as int]
    ensures !('a' <= c <= 'z') ==> u == c
    ensures ('A' <= u <= 'Z') <==> ('a' <= c <= 'z' || 'A' <= c <= 'Z')
    ensures !('a' <= u <= 'z')
  {
    if 'a' <= c <= 'z' then (c as int - 32) as char else c
  }

  /** `s.upper()`: character by character, so the length is kept. */
  function Upper(s: string): (r: string)
    ensures |r| == |s|
    ensures forall i | 0 <= i < |s| :: r[i] == UpperChar(s[i])
  {
    if s == [] then [] else [UpperChar(s[0])] + Upper(s[1..])
  }

  /** Upper-casing twice is upper-casing once. */
  lemma UpperIdempotent(s: string)
    ensures Upper(Upper(s)) == Upper(s)
  {
    assert forall i | 0 <= i < |s| :: UpperChar(UpperChar(s[i])) == UpperChar(s[i]);
  }

  // ---------------------------------------------------------------------------
  // The banned words (line 34) and the veto (line 36)
  // ---------------------------------------------------------------------------

  const Banned: seq<string> := ["INVOICE", "TAX", "DATE", "PAGE", "NO:", "SHIPMENT"]

  /** `any(x in text_upper for x in banned)`. */
  predicate Vetoed(up: string) {
    exists b | 0 <= b < |Banned| :: Contains(up, Banned[b])
  }

  // ---------------------------------------------------------------------------
  // Character runs: `[A-Z0-9-]{5,}` (line 37) and `\d{4,}` (line 38)
  // ---------------------------------------------------------------------------

  /** The two character classes of the scorer's patterns. */
  datatype CharClass = PoChar | Digit

  predicate InClass(c: char, cls: CharClass) {
    match cls
    case PoChar => ('A' <= c <= 'Z') || ('0' <= c <= '9') || c == '-'
    case Digit => '0' <= c <= '9'
  }

  /** `s[i..i + n]` lies in the class. */
  predicate RunAt(s: string, cls: CharClass, n: nat, i: int) {
    0 <= i && i + n <= |s| && forall j | i <= j < i + n :: InClass(s[j], cls)
  }

  /** Reference meaning of `re.search(cls{n,}, s)` finding a match: `n`
      consecutive characters of the class somewhere in `s`. */
  ghost predicate HasRun(s: string, cls: CharClass, n: nat) {
    exists i :: RunAt(s, cls, n, i)
  }

  /** A left-to-right scan that counts the class characters seen in a row.
      `run` is the length of the run that ends just before `i`; no run of
      length `n` ends before `i`. */
  function ScanRun(s: string, cls: CharClass, n: nat, i: nat, run: nat): (found: bool)
    requires 0 < n && run < n && run <= i <= |s|
    requires forall j | i - run <= j < i :: InClass(s[j], cls)
    requires i - run == 0 || !InClass(s[i - run - 1], cls)
    requires forall j | 0 <= j && j + n <= i :: !RunAt(s, cls, n, j)
    ensures found <==> HasRun(s, cls, n)
    decreases |s| - i
  {
    if i == |s| then
      assert forall j :: !RunAt(s, cls, n, j);
      false
    else if InClass(s[i], cls) then
      if run + 1 == n then
        assert RunAt(s, cls, n, i - run);
        true
      else
        assert forall j | 0 <= j && j + n == i + 1 :: !RunAt(s, cls, n, j) by {
          forall j | 0 <= j && j + n == i + 1 ensures !RunAt(s, cls, n, j) {
            assert j <= i - run - 1;
          }
        }
        ScanRun(s, cls, n, i + 1, run + 1)
    else
      assert forall j | 0 <= j && j + n == i + 1 :: !RunAt(s, cls, n, j) by {
        forall j | 0 <= j && j + n == i + 1 ensures !RunAt(s, cls, n, j) {
          assert j <= i < j + n;
        }
      }
      ScanRun(s, cls, n, i + 1, 0)
  }

  /** `re.search` of a run of at least `n` class characters. */
  function SearchRun(s: string, cls: CharClass, n: nat): (found: bool)
    requires 0 < n
    ensures found <==> HasRun(s, cls, n)
  {
    ScanRun(s, cls, n, 0, 0)
  }

  // ---------------------------------------------------------------------------
  // The score (lines 29-39)
  // ---------------------------------------------------------------------------

  /** `validate_po(text)`. */
  function ValidatePo(text: string): (score: int)
    ensures score == 0 || score == 50 || score == 100
    ensures Vetoed(Upper(text)) ==> score == 0
    ensures score == 100 <==> !Vetoed(Upper(text)) && HasRun(Upper(text), PoChar, 5)
    ensures score == 50 <==> !Vetoed(Upper(text)) && !HasRun(Upper(text), PoChar, 5) && HasRun(text, Digit, 4)
  {
    var up := Upper(text);
    if Vetoed(up) then 0
    else if SearchRun(up, PoChar, 5) then 100
    else if SearchRun(text, Digit, 4) then 50
    else 0
  }

  // ---------------------------------------------------------------------------
  // Properties
  // ---------------------------------------------------------------------------

  /** Upper-casing maps digits to themselves and nothing else to a digit. */
  lemma {:induction false} UpperDigitRuns(s: string, n: nat)
    ensures HasRun(Upper(s), Digit, n) <==> HasRun(s, Digit, n)
  {
    if HasRun(s, Digit, n) {
      var i :| RunAt(s, Digit, n, i);
      assert RunAt(Upper(s), Digit, n, i);
    }
    if HasRun(Upper(s), Digit, n) {
      var i :| RunAt(Upper(s), Digit, n, i);
      assert RunAt(s, Digit, n, i);
    }
  }

  /** Digits belong to `[A-Z0-9-]`, before and after upper-casing. */
  lemma {:induction false} DigitRunIsPoRun(s: string, n: nat)
    requires HasRun(s, Digit, n)
    ensures HasRun(Upper(s), PoChar, n)
  {
    var i :| RunAt(s, Digit, n, i);
    assert RunAt(Upper(s), PoChar, n, i);
  }

  /** A score of 50 means the longest digit run has exactly four digits: a
      fifth digit would already have scored 100. */
  lemma HalfScoreMeansFourDigits(text: string)
    requires ValidatePo(text) == 50
    ensures HasRun(text, Digit, 4) && !HasRun(text, Digit, 5)
  {
    if HasRun(text, Digit, 5) {
      DigitRunIsPoRun(text, 5);
    }
  }

  /** Five digits in a row and no banned word score 100. */
  lemma FiveDigitsScoreFull(text: string)
    requires HasRun(text, Digit, 5) && !Vetoed(Upper(text))
    ensures ValidatePo(text) == 100
  {
    DigitRunIsPoRun(text, 5);
  }

  /** The score does not depend on letter case. */
  lemma CaseInsensitive(text: string)
    ensures ValidatePo(Upper(text)) == ValidatePo(text)
  {
    UpperIdempotent(text);
    UpperDigitRuns(text, 4);
  }

  // ---------------------------------------------------------------------------
  // Characteristic inputs
  // ---------------------------------------------------------------------------

  /** A banned word vetoes even a run that would score 100. */
  lemma InvoiceVetoed(t: string)
    requires t == "INVOICE 12345"
    ensures ValidatePo(t) == 0
  {
    assert Upper(t) == t;
    assert OccursAt(t, Banned[0], 0);
  }

  /** An order number scores 100, in either case. */
  lemma OrderNumberScoresFull(t: string)
    requires t == "PO-88210" || t == "po-88210"
    ensures ValidatePo(t) == 100
  {
    var up := Upper(t);
    UpperOrderNumber(t);
    assert RunAt(up, PoChar, 5, 0);
    forall b | 0 <= b < |Banned| ensures !Contains(up, Banned[b]) {
      forall i | 0 <= i <= |up| - |Banned[b]| ensures !OccursAt(up, Banned[b], i) {
        assert up[i] != Banned[b][0] || up[i + 1] != Banned[b][1];
      }
    }
  }

  /** Upper-casing the lower-case order number gives the upper-case one. */
  lemma UpperOrderNumber(t: string)
    requires t == "PO-88210" || t == "po-88210"
    ensures Upper(t) == "PO-88210"
  {
    assert UpperChar('p') == 'P' && UpperChar('o') == 'O';
    forall i | 2 <= i < |t| ensures UpperChar(t[i]) == t[i] {
    }
  }

  /** Four digits alone score 50. */
  lemma FourDigitsScoreHalf(t: string)
    requires t == "4412"
    ensures ValidatePo(t) == 50
  {
    assert Upper(t) == t;
    assert RunAt(t, Digit, 4, 0);
    forall b | 0 <= b < |Banned| ensures !Contains(t, Banned[b]) {
      forall i | 0 <= i <= |t| - |Banned[b]| ensures !OccursAt(t, Banned[b], i) {
        assert t[i] != Banned[b][0];
      }
    }
    assert !HasRun(t, PoChar, 5);
  }

  /** Short letters and the empty text score 0. */
  lemma NothingScoresZero(t: string)
    requires t == "ab" || t == ""
    ensures ValidatePo(t) == 0
  {
    assert |Upper(t)| < 3;
    assert !HasRun(Upper(t), PoChar, 5);
    assert !HasRun(t, Digit, 4);
  }
}
