/**
 * Numeric extraction in `read`: `re.search(r"[-+]?\d*\.\d+", text)` on the
 * decoded reply, the leftmost match, taken as greedily as the pattern
 * allows, and the error when there is none.
 */
module Extraction {
  import opened Wrappers
  import opened Utf8
  import opened Decimals

  /** The length of the run of digits that starts at `j`. */
  function DigitRun(s: string, j: nat): (n: nat)
    requires j <= |s|
    ensures j + n <= |s|
    ensures j + n == |s| || !IsDigit(s[j + n])
    decreases |s| - j
  {
    if j == |s| || !IsDigit(s[j]) then 0 else 1 + DigitRun(s, j + 1)
  }

  /** Everything in the run is a digit. */
  lemma {:induction false} DigitRunDigits(s: string, j: nat)
    requires j <= |s|
    ensures forall x :: j <= x < j + DigitRun(s, j) ==> IsDigit(s[x])
    decreases |s| - j
  {
    if j < |s| && IsDigit(s[j]) {
      DigitRunDigits(s, j + 1);
    }
  }

  /**
   * Where the match attempted at `i` ends, if it succeeds.  A sign at `i`
   * must be taken (nothing else in the pattern matches one), `\d*` takes
   * the whole run of digits (giving any back would put a digit where the
   * point must be), then a point and the whole run of digits after it,
   * which must not be empty.
   */
  function MatchAt(s: string, i: nat): Option<nat>
    requires i <= |s|
  {
    var j := if i < |s| && IsSign(s[i]) then i + 1 else i;
    var k := j + DigitRun(s, j);
    if k < |s| && s[k] == '.' && k + 1 < |s| && IsDigit(s[k + 1]) then
      Some(k + 1 + DigitRun(s, k + 1))
    else None
  }

  /** The match at the first position from `a` on where the pattern matches. */
  function SearchFrom(s: string, a: nat): (r: Option<(nat, nat)>)
    requires a <= |s|
    ensures r.Some? ==> a <= r.value.0 <= |s| && MatchAt(s, r.value.0) == Some(r.value.1)
    ensures r.Some? ==> forall x :: a <= x < r.value.0 ==> MatchAt(s, x).None?
    ensures r.None? ==> forall x :: a <= x <= |s| ==> MatchAt(s, x).None?
    decreases |s| - a
  {
    match MatchAt(s, a)
    case Some(e) => Some((a, e))
    case None => if a == |s| then None else SearchFrom(s, a + 1)
  }

  /** `re.search(r"[-+]?\d*\.\d+", s)`: start and end of the match. */
  function Search(s: string): Option<(nat, nat)>
  {
    SearchFrom(s, 0)
  }

  /** A successful attempt at `i` matches one whole literal. */
  lemma MatchAtSound(s: string, i: nat)
    requires i <= |s| && MatchAt(s, i).Some?
    ensures i < MatchAt(s, i).value <= |s|
    ensures IsLiteral(s[i..MatchAt(s, i).value])
  {
    var j := if i < |s| && IsSign(s[i]) then i + 1 else i;
    var k := j + DigitRun(s, j);
    var e := MatchAt(s, i).value;
    var t := s[i..e];
    DigitRunDigits(s, j);
    DigitRunDigits(s, k + 1);
    assert t[0] == s[i];
    forall x | j - i <= x < k - i ensures IsDigit(t[x]) {
      assert t[x] == s[i + x];
    }
    forall x | k - i < x < |t| ensures IsDigit(t[x]) {
      assert t[x] == s[i + x];
    }
    LiteralAt(t, j - i, k - i);
  }

  /**
   * A text is a literal when the sign, if any, is followed by digits up to
   * a point at `k` and at least one digit after it, and nothing else.
   */
  lemma LiteralAt(t: string, j: nat, k: nat)
    requires j == SignLength(t) && j <= k < |t| - 1 && t[k] == '.'
    requires forall x :: j <= x < k ==> IsDigit(t[x])
    requires forall x :: k < x < |t| ==> IsDigit(t[x])
    ensures IsLiteral(t)
  {
    forall x | 0 <= x < k ensures t[x] != '.' {
      if x >= j { assert IsDigit(t[x]); }
    }
    Strings.IndexOfIs(t, '.', k);
    var whole, frac := t[j..k], t[k + 1..];
    forall x | 0 <= x < |whole| ensures IsDigit(whole[x]) {
      assert whole[x] == t[j + x];
    }
    forall x | 0 <= x < |frac| ensures IsDigit(frac[x]) {
      assert frac[x] == t[k + 1 + x];
    }
  }

  /**
   * Every literal that starts at `i` is covered by the attempt at `i`,
   * which ends no earlier; it ends exactly there when the literal is not
   * followed by a digit.
   */
  lemma MatchAtLongest(s: string, i: nat, e: nat)
    requires i <= e <= |s| && IsLiteral(s[i..e])
    ensures MatchAt(s, i).Some? && e <= MatchAt(s, i).value
    ensures (e == |s| || !IsDigit(s[e])) ==> MatchAt(s, i).value == e
  {
    var k := LiteralInside(s, i, e);
    var j := if i < |s| && IsSign(s[i]) then i + 1 else i;
    RunUpTo(s, j, k);
    if e == |s| || !IsDigit(s[e]) {
      RunUpTo(s, k + 1, e);
    }
  }

  /**
   * A literal `s[i..e]` seen in `s`: a sign at `i` exactly when `s[i]` is
   * one, digits up to the point at `k`, and at least one digit after it.
   */
  lemma LiteralInside(s: string, i: nat, e: nat) returns (k: nat)
    requires i <= e <= |s| && IsLiteral(s[i..e])
    ensures var j := if i < |s| && IsSign(s[i]) then i + 1 else i;
      && j <= k && k + 1 < e && s[k] == '.'
      && (forall x :: j <= x < k ==> IsDigit(s[x]))
      && (forall x :: k + 1 <= x < e ==> IsDigit(s[x]))
  {
    var t := s[i..e];
    var j' := SignLength(t);
    var k' := Strings.IndexOf(t, '.');
    k := i + k';
    var j := if i < |s| && IsSign(s[i]) then i + 1 else i;
    assert t[0] == s[i];
    forall x | j <= x < k ensures IsDigit(s[x]) {
      assert s[x] == t[j'..k'][x - j];
    }
    forall x | k + 1 <= x < e ensures IsDigit(s[x]) {
      assert s[x] == t[k' + 1..][x - k - 1];
    }
  }

  /** A run of digits that stops at a non-digit is exactly the digit run there. */
  lemma {:induction false} RunUpTo(s: string, j: nat, k: nat)
    requires j <= k <= |s| && (k == |s| || !IsDigit(s[k]))
    requires forall x :: j <= x < k ==> IsDigit(s[x])
    ensures DigitRun(s, j) == k - j
    decreases k - j
  {
    if j < k {
      RunUpTo(s, j + 1, k);
    }
  }

  /**
   * `Search` is the leftmost, and at its start the longest, occurrence of
   * the pattern; it finds nothing only when no substring is a literal.
   */
  lemma SearchLeftmostLongest(s: string)
    ensures Search(s).Some? ==>
      var (i, e) := Search(s).value;
      && i < e <= |s| && IsLiteral(s[i..e])
      && (forall i', e' :: 0 <= i' < i && i' <= e' <= |s| ==> !IsLiteral(s[i'..e']))
      && (forall e' :: i <= e' <= |s| && IsLiteral(s[i..e']) ==> e' <= e)
    ensures Search(s).None? ==>
      forall i', e' :: 0 <= i' <= e' <= |s| ==> !IsLiteral(s[i'..e'])
  {
    forall i', e' | 0 <= i' <= e' <= |s| && IsLiteral(s[i'..e'])
      ensures Search(s).Some? && Search(s).value.0 <= i'
      ensures Search(s).value.0 == i' ==> e' <= Search(s).value.1
    {
      MatchAtLongest(s, i', e');
    }
    if Search(s).Some? {
      MatchAtSound(s, Search(s).value.0);
    }
  }

  /** What `read` makes of a matched literal: its text and exact value. */
  datatype Reading = Reading(text: string, value: Decimal)

  /** Why `read` fails: the reply is not UTF-8 (UnicodeDecodeError), or no number is in it (RuntimeError). */
  datatype ReadError = NotUtf8 | NoReading(channel: string)

  /**
   * Lines 118-123 of `read` once the reply is decoded: the leftmost
   * literal in the text and its value, or a failure naming the channel.
   */
  function Extract(channel: string, t: string): (r: Result<Reading, ReadError>)
    ensures r.Err? ==> r.error == NoReading(channel)
    ensures r.Err? <==> forall i, e :: 0 <= i <= e <= |t| ==> !IsLiteral(t[i..e])
    ensures r.Ok? ==>
      && Search(t).Some? && Search(t).value.0 < Search(t).value.1 <= |t|
      && r.value.text == t[Search(t).value.0..Search(t).value.1]
      && IsLiteral(r.value.text)
      && r.value.value == LiteralValue(r.value.text)
  {
    SearchLeftmostLongest(t);
    match Search(t)
    case None => Err(NoReading(channel))
    case Some((i, e)) => Ok(Reading(t[i..e], LiteralValue(t[i..e])))
  }

  /**
   * Lines 117-123 of `read`: decode the reply, then extract the reading;
   * bytes that are not UTF-8 fail before any search.
   */
  function Interpret(channel: string, reply: seq<Byte>): (r: Result<Reading, ReadError>)
    ensures r == Err(NotUtf8) <==> Decode(reply).None?
    ensures Decode(reply).Some? ==> r == Extract(channel, Decode(reply).value)
  {
    match Decode(reply)
    case None => Err(NotUtf8)
    case Some(t) => Extract(channel, t)
  }

  /**
   * A label in front of a reading, such as a channel name with its number
   * ("In1: "): it may hold digits and signs, but no point, and it ends in
   * a character that cannot begin or continue a literal.
   */
  predicate IsLabel(prefix: string)
  {
    && (forall x :: 0 <= x < |prefix| ==> prefix[x] != '.')
    && (|prefix| > 0 ==> !IsDigit(prefix[|prefix| - 1]) && !IsSign(prefix[|prefix| - 1]))
  }

  /**
   * A literal behind a prefix such as a channel name or units in the
   * device's verbose mode, and not followed by a digit, is what the search
   * finds.
   */
  lemma SearchFindsLabelledLiteral(prefix: string, lit: string, tail: string)
    requires IsLabel(prefix) && IsLiteral(lit)
    requires tail == [] || !IsDigit(tail[0])
    ensures Search(prefix + lit + tail) == Some((|prefix|, |prefix| + |lit|))
  {
    var s := prefix + lit + tail;
    var n := |prefix|;
    NoMatchBeforeLiteral(prefix, lit + tail);
    assert s == prefix + (lit + tail);
    assert MatchAt(s, n) == Some(n + |lit|) by {
      assert s[n..n + |lit|] == lit;
      assert tail != [] ==> s[n + |lit|] == tail[0];
      MatchAtLongest(s, n, n + |lit|);
    }
    SearchFirstMatch(s, n);
  }

  /** No attempt that starts inside a label succeeds, whatever follows the label. */
  lemma NoMatchBeforeLiteral(prefix: string, rest: string)
    requires IsLabel(prefix)
    ensures forall x :: 0 <= x < |prefix| ==> MatchAt(prefix + rest, x).None?
  {
    var s := prefix + rest;
    assert s[..|prefix|] == prefix;
    forall x | 0 <= x < |prefix| ensures MatchAt(s, x).None? {
      NoMatchInLabel(s, |prefix|, x);
    }
  }

  /** The search stops at the first position where an attempt succeeds. */
  lemma SearchFirstMatch(s: string, n: nat)
    requires n <= |s| && MatchAt(s, n).Some?
    requires forall x :: 0 <= x < n ==> MatchAt(s, x).None?
    ensures Search(s) == Some((n, MatchAt(s, n).value))
  {
  }

  /**
   * No attempt inside a label succeeds: the digits it holds run at most
   * to its last character, and no point follows them there.
   */
  lemma NoMatchInLabel(s: string, n: nat, x: nat)
    requires x < n <= |s| && IsLabel(s[..n])
    ensures MatchAt(s, x).None?
  {
    var prefix := s[..n];
    assert !IsDigit(s[n - 1]) && !IsSign(s[n - 1]) by { assert s[n - 1] == prefix[n - 1]; }
    var j := if IsSign(s[x]) then x + 1 else x;
    assert j < n;
    var k := j + DigitRun(s, j);
    DigitRunDigits(s, j);
    assert k < n;
    assert s[k] == prefix[k];
  }

  /** No match starts at a character that is neither a sign, a digit nor a point. */
  lemma NoMatchAtPlain(s: string, x: nat)
    requires x < |s| && !IsDigit(s[x]) && !IsSign(s[x]) && s[x] != '.'
    ensures MatchAt(s, x).None?
  {
    assert DigitRun(s, x) == 0;
  }

  /** A reply without a decimal point holds no reading. */
  lemma NoPointNoMatch(t: string)
    requires forall x :: 0 <= x < |t| ==> t[x] != '.'
    ensures Search(t).None?
  {
    if Search(t).Some? {
      var (i, e) := Search(t).value;
      MatchAtSound(t, i);
    }
  }

  /** A labelled literal in a reply is what `read` returns, text and value. */
  lemma ExtractLabelled(channel: string, prefix: string, lit: string, tail: string)
    requires IsLabel(prefix) && IsLiteral(lit)
    requires tail == [] || !IsDigit(tail[0])
    ensures Extract(channel, prefix + lit + tail) == Ok(Reading(lit, LiteralValue(lit)))
  {
    var t := prefix + lit + tail;
    SearchFindsLabelledLiteral(prefix, lit, tail);
    assert t[|prefix|..|prefix| + |lit|] == lit;
  }

  /** A decimal as the caller writes it, behind a prefix and before CR LF, is read back exactly. */
  lemma ExtractDecimal(channel: string, prefix: string, d: Decimal)
    requires d.scale >= 1 && IsLabel(prefix)
    ensures Extract(channel, prefix + DecimalText(d) + "\r\n") == Ok(Reading(DecimalText(d), d))
  {
    DecimalTextRoundTrip(d);
    ExtractLabelled(channel, prefix, DecimalText(d), "\r\n");
  }

  /** The reading in the usage example of the driver's documentation. */
  lemma ReadDocExample()
    ensures Extract("In1", "300.841\r\n") == Ok(Reading("300.841", Decimal(300841, 3)))
  {
    DocLiteral();
    assert "300.841\r\n" == "" + "300.841" + "\r\n";
    ExtractLabelled("In1", "", "300.841", "\r\n");
  }

  /** A verbose reply labelled with the channel's own number: the digit in the label is skipped. */
  lemma ReadChannelLabelExample()
    ensures Extract("In1", "In1: 300.841\r\n") == Ok(Reading("300.841", Decimal(300841, 3)))
  {
    DocLiteral();
    assert IsLabel("In1: ");
    assert "In1: 300.841\r\n" == "In1: " + "300.841" + "\r\n";
    ExtractLabelled("In1", "In1: ", "300.841", "\r\n");
  }

  /** "300.841" is a literal worth 300841 thousandths. */
  lemma DocLiteral()
    ensures IsLiteral("300.841") && LiteralValue("300.841") == Decimal(300841, 3)
  {
    LiteralOfParts("", "300", "841");
    DocDigits();
    assert "300" + "841" == "300841";
    assert "" + "300" + "." + "841" == "300.841";
  }

  lemma DocDigits()
    ensures Value("300841") == 300841
  {
    assert "30084" == "300841"[..5];
    assert "3008" == "30084"[..4];
    assert "300" == "3008"[..3];
    assert "30" == "300"[..2];
    assert "3" == "30"[..1];
    assert [] == "3"[..0];
  }

  /** A reply in verbose mode: the label and the units around the number are skipped. */
  lemma ReadVerboseExample()
    ensures Extract("In2", "Temp: -0.5 C\r\n") == Ok(Reading("-0.5", Decimal(-5, 1)))
  {
    VerboseLiteral();
    assert IsLabel("Temp: ");
    assert "Temp: -0.5 C\r\n" == "Temp: " + "-0.5" + " C\r\n";
    ExtractLabelled("In2", "Temp: ", "-0.5", " C\r\n");
  }

  /** "-0.5" is a literal worth minus five tenths. */
  lemma VerboseLiteral()
    ensures IsLiteral("-0.5") && LiteralValue("-0.5") == Decimal(-5, 1)
  {
    LiteralOfParts("-", "0", "5");
    assert Value("05") == 5 by {
      assert "0" == "05"[..1];
      assert [] == "0"[..0];
    }
    assert "0" + "5" == "05";
    assert "-" + "0" + "." + "5" == "-0.5";
  }

  /** A reply with no number fails, naming the channel. */
  lemma ReadNoValueExample()
    ensures Extract("In3", "No Value\r\n") == Err(NoReading("In3"))
  {
    NoPointNoMatch("No Value\r\n");
  }
}
