/**
 * The elapsed-time display of chat-with-local-llm.py: update_waiting_label
 * ("Waiting: ...") and send_request ("Reasoned for ..."). Both show whole
 * seconds below a minute and minutes plus seconds from a minute on. The
 * elapsed time is the whole number of seconds int(elapsed).
 */
module Elapsed {

  /** The two display forms: "{s}s" and "{m}m {sec}s". */
  datatype Elapsed = Seconds(total: nat) | MinutesSeconds(minutes: nat, seconds: nat)

  /** The rule of both call sites: under 60 s seconds only, else s // 60 and s % 60. */
  function BreakDown(s: nat): (e: Elapsed)
    ensures e.Seconds? <==> s < 60
    ensures e.Seconds? ==> e.total == s
    ensures e.MinutesSeconds? ==> 1 <= e.minutes && e.seconds < 60 && e.minutes * 60 + e.seconds == s
  {
    if s < 60 then Seconds(s) else MinutesSeconds(s / 60, s % 60)
  }

  predicate IsDigit(c: char) { '0' <= c <= '9' }

  predicate AllDigits(s: string) { forall i :: 0 <= i < |s| ==> IsDigit(s[i]) }

  function DigitChar(d: nat): (c: char)
    requires d < 10
    ensures IsDigit(c)
  {
    ('0' as int + d) as char
  }

  /** str(n) for a non-negative integer: decimal digits, no leading zero. */
  function Decimal(n: nat): (r: string)
    ensures |r| >= 1 && AllDigits(r)
    ensures r[0] == '0' ==> r == "0"
  {
    if n < 10 then [DigitChar(n)] else Decimal(n / 10) + [DigitChar(n % 10)]
  }

  /** The number a string of decimal digits denotes. */
  function DecimalValue(s: string): nat
    requires AllDigits(s)
  {
    if s == [] then 0 else DecimalValue(s[..|s| - 1]) * 10 + (s[|s| - 1] as int - '0' as int)
  }

  /** Reading back the digits of n gives n. */
  lemma {:induction false} DecimalRoundTrip(n: nat)
    ensures DecimalValue(Decimal(n)) == n
  {
    var r := Decimal(n);
    if n >= 10 {
      DecimalRoundTrip(n / 10);
      assert r[..|r| - 1] == Decimal(n / 10);
    }
  }

  /** How the seconds are shown, after "Waiting: " or "Reasoned for ". */
  function ElapsedText(e: Elapsed): string
  {
    match e
    case Seconds(s) => Decimal(s) + "s"
    case MinutesSeconds(m, sec) => Decimal(m) + "m " + Decimal(sec) + "s"
  }

  /** The waiting label's text while a request is pending. */
  function WaitingLabel(s: nat): string
  {
    "Waiting: " + ElapsedText(BreakDown(s))
  }

  /** The note logged before the reply. */
  function ReasoningNote(s: nat): string
  {
    "Reasoned for " + ElapsedText(BreakDown(s)) + "."
  }

  /** Two digit strings followed by text that does not start with a digit split the same way. */
  lemma DigitsThenText(d1: string, x: string, d2: string, y: string)
    requires AllDigits(d1) && AllDigits(d2)
    requires |x| > 0 && |y| > 0 && !IsDigit(x[0]) && !IsDigit(y[0])
    requires d1 + x == d2 + y
    ensures d1 == d2 && x == y
  {
    DigitRun(d1, x);
    DigitRun(d2, y);
    assert |d1| == |d2|;
    assert d1 == (d1 + x)[..|d1|];
    assert d2 == (d2 + y)[..|d2|];
    assert x == (d1 + x)[|d1|..];
    assert y == (d2 + y)[|d2|..];
  }

  /** In d + x the first non-digit is at |d|. */
  lemma DigitRun(d: string, x: string)
    requires AllDigits(d) && |x| > 0 && !IsDigit(x[0])
    ensures forall i :: 0 <= i < |d| ==> IsDigit((d + x)[i])
    ensures !IsDigit((d + x)[|d|])
  {
  }

  /** Equal digit strings denote equal numbers. */
  lemma DecimalInjective(a: nat, b: nat)
    requires Decimal(a) == Decimal(b)
    ensures a == b
  {
    DecimalRoundTrip(a);
    DecimalRoundTrip(b);
  }

  /** The shown text determines the whole seconds: no two elapsed times look alike. */
  lemma ElapsedTextInjective(a: nat, b: nat)
    requires ElapsedText(BreakDown(a)) == ElapsedText(BreakDown(b))
    ensures a == b
  {
    var ea, eb := BreakDown(a), BreakDown(b);
    if ea.Seconds? && eb.Seconds? {
      DigitsThenText(Decimal(a), "s", Decimal(b), "s");
      DecimalInjective(a, b);
    } else if ea.MinutesSeconds? && eb.MinutesSeconds? {
      var ta := "m " + Decimal(ea.seconds) + "s";
      var tb := "m " + Decimal(eb.seconds) + "s";
      assert ElapsedText(ea) == Decimal(ea.minutes) + ta;
      assert ElapsedText(eb) == Decimal(eb.minutes) + tb;
      DigitsThenText(Decimal(ea.minutes), ta, Decimal(eb.minutes), tb);
      DecimalInjective(ea.minutes, eb.minutes);
      assert ta[2..] == Decimal(ea.seconds) + "s";
      assert tb[2..] == Decimal(eb.seconds) + "s";
      DigitsThenText(Decimal(ea.seconds), "s", Decimal(eb.seconds), "s");
      DecimalInjective(ea.seconds, eb.seconds);
    } else if ea.Seconds? {
      var tb := "m " + Decimal(eb.seconds) + "s";
      assert Decimal(eb.minutes) + tb == ElapsedText(eb);
      DigitsThenText(Decimal(a), "s", Decimal(eb.minutes), tb);
      assert false;
    } else {
      var ta := "m " + Decimal(ea.seconds) + "s";
      assert Decimal(ea.minutes) + ta == ElapsedText(ea);
      DigitsThenText(Decimal(ea.minutes), ta, Decimal(b), "s");
      assert false;
    }
  }

  /** Different elapsed times give different waiting labels. */
  lemma WaitingLabelInjective(a: nat, b: nat)
    requires WaitingLabel(a) == WaitingLabel(b)
    ensures a == b
  {
    var p := "Waiting: ";
    assert ElapsedText(BreakDown(a)) == WaitingLabel(a)[|p|..];
    assert ElapsedText(BreakDown(b)) == WaitingLabel(b)[|p|..];
    ElapsedTextInjective(a, b);
  }

  /** Different elapsed times give different reasoning notes. */
  lemma ReasoningNoteInjective(a: nat, b: nat)
    requires ReasoningNote(a) == ReasoningNote(b)
    ensures a == b
  {
    var p := "Reasoned for ";
    var na, nb := ReasoningNote(a), ReasoningNote(b);
    assert ElapsedText(BreakDown(a)) == na[|p|..|na| - 1];
    assert ElapsedText(BreakDown(b)) == nb[|p|..|nb| - 1];
    ElapsedTextInjective(a, b);
  }
}
