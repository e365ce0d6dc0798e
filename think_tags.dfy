/**
 * Rendering of the model's reply in update_conversation
 * (chat-with-local-llm.py): the reply is split on the markers <think> and
 * </think>, and each piece of text is logged with the tag 'think' or
 * 'regular' depending on a flag that the markers set and clear.
 * The conversation widget is the sequence of (text, tag) entries inserted.
 */
module ThinkTags {
  import opened Strings

  const OPEN: string := "<think>"
  const CLOSE: string := "</think>"

  /** A piece of re.split(r'(<think>|</think>)', reply): text, or a captured marker. */
  datatype Part = Text(text: string) | Marker(opens: bool)

  /** Tags of the conversation log: 'regular', 'think', 'bold', or none. */
  datatype Tag = Regular | Think | Bold | Untagged

  /** One insert into the conversation log. */
  datatype Entry = Entry(text: string, tag: Tag)

  /** A marker begins at position i of s. */
  predicate MarkerAt(s: string, i: nat)
    requires i <= |s|
  {
    StartsWith(s[i..], OPEN) || StartsWith(s[i..], CLOSE)
  }

  /** No marker begins anywhere in t. */
  predicate NoMarker(t: string)
  {
    forall i :: 0 <= i < |t| ==> !MarkerAt(t, i)
  }

  /** What a split with one capturing group yields: text, marker, text, ..., text. */
  predicate Alternating(parts: seq<Part>)
  {
    |parts| % 2 == 1 && forall k :: 0 <= k < |parts| ==> (parts[k].Text? <==> k % 2 == 0)
  }

  /**
   * re.split(r'(<think>|</think>)', s): scanning left to right, every marker
   * occurrence ends the current text piece and is kept as a piece of its own.
   */
  function SplitThink(s: string): (parts: seq<Part>)
    ensures Alternating(parts)
    decreases |s|
  {
    if s == [] then [Text([])]
    else if StartsWith(s, OPEN) then
      var rest := SplitThink(s[|OPEN|..]);
      AlternatingCons(true, rest);
      [Text([]), Marker(true)] + rest
    else if StartsWith(s, CLOSE) then
      var rest := SplitThink(s[|CLOSE|..]);
      AlternatingCons(false, rest);
      [Text([]), Marker(false)] + rest
    else
      var rest := SplitThink(s[1..]);
      AlternatingNewHead([s[0]] + rest[0].text, rest);
      [Text([s[0]] + rest[0].text)] + rest[1..]
  }

  lemma AlternatingCons(opens: bool, rest: seq<Part>)
    requires Alternating(rest)
    ensures Alternating([Text([]), Marker(opens)] + rest)
  {
    var parts := [Text([]), Marker(opens)] + rest;
    forall k | 2 <= k < |parts| ensures parts[k].Text? <==> k % 2 == 0 {
      assert parts[k] == rest[k - 2];
    }
  }

  lemma AlternatingNewHead(t: string, rest: seq<Part>)
    requires Alternating(rest)
    ensures Alternating([Text(t)] + rest[1..])
  {
    var parts := [Text(t)] + rest[1..];
    forall k | 1 <= k < |parts| ensures parts[k].Text? <==> k % 2 == 0 {
      assert parts[k] == rest[k];
    }
  }

  /** The characters a piece stands for in the reply: its text, or the marker it captured. */
  function PartString(p: Part): string
  {
    match p
    case Text(t) => t
    case Marker(opens) => if opens then OPEN else CLOSE
  }

  /** The pieces written back one after another, markers included. */
  function Unsplit(parts: seq<Part>): string
  {
    if parts == [] then [] else PartString(parts[0]) + Unsplit(parts[1..])
  }

  /** The reply with every marker taken out, scanning left to right. */
  function RemoveMarkers(s: string): string
    decreases |s|
  {
    if s == [] then []
    else if StartsWith(s, OPEN) then RemoveMarkers(s[|OPEN|..])
    else if StartsWith(s, CLOSE) then RemoveMarkers(s[|CLOSE|..])
    else [s[0]] + RemoveMarkers(s[1..])
  }

  /** The nearest marker in `parts` is <think>; false when there is no marker. */
  function LastMarkerOpens(parts: seq<Part>): bool
    decreases |parts|
  {
    if parts == [] then false
    else match parts[|parts| - 1]
      case Marker(opens) => opens
      case Text(_) => LastMarkerOpens(parts[..|parts| - 1])
  }

  /** Every text piece in order, tagged 'think' exactly when the nearest marker before it is <think>. */
  function Rendered(parts: seq<Part>): seq<Entry>
    decreases |parts|
  {
    if parts == [] then []
    else
      var init := parts[..|parts| - 1];
      match parts[|parts| - 1]
      case Marker(_) => Rendered(init)
      case Text(t) => Rendered(init) + [Entry(t, if LastMarkerOpens(init) then Think else Regular)]
  }

  /** The text pieces of `parts`, in order. */
  function Texts(parts: seq<Part>): seq<string>
    decreases |parts|
  {
    if parts == [] then []
    else
      var init := parts[..|parts| - 1];
      match parts[|parts| - 1]
      case Marker(_) => Texts(init)
      case Text(t) => Texts(init) + [t]
  }

  function EntryTexts(entries: seq<Entry>): seq<string>
  {
    seq(|entries|, i requires 0 <= i < |entries| => entries[i].text)
  }

  /**
   * update_conversation: logs the reasoning note, "Bot: ", the reply piece by
   * piece, and a blank line.
   */
  method UpdateConversation(reply: string, reasoningNote: string) returns (log: seq<Entry>)
    ensures log == [Entry(reasoningNote + "\n", Regular), Entry("Bot: ", Bold)] +
                   Rendered(SplitThink(reply)) + [Entry("\n\n", Untagged)]
  {
    log := [Entry(reasoningNote + "\n", Regular), Entry("Bot: ", Bold)];
    ghost var header := log;
    var parts := SplitThink(reply);
    var italic := false;
    var i := 0;
    while i < |parts|
      invariant 0 <= i <= |parts|
      invariant italic == LastMarkerOpens(parts[..i])
      invariant log == header + Rendered(parts[..i])
    {
      assert parts[..i + 1][..i] == parts[..i];
      match parts[i] {
        case Marker(opens) =>
          italic := opens;
        case Text(t) =>
          var tag := if italic then Think else Regular;
          log := log + [Entry(t, tag)];
      }
      i := i + 1;
    }
    assert parts[..i] == parts;
    log := log + [Entry("\n\n", Untagged)];
  }

  /**
   * On the pieces of a split, entry j is text piece 2j, and it is tagged
   * 'think' exactly when the marker just before it is <think>; the first
   * piece, before any marker, is 'regular'.
   */
  lemma {:induction false} RenderedAlternating(parts: seq<Part>)
    requires Alternating(parts)
    ensures |Rendered(parts)| == (|parts| + 1) / 2
    ensures forall j :: 0 <= j < |Rendered(parts)| ==>
      Rendered(parts)[j] == Entry(parts[2 * j].text, if j > 0 && parts[2 * j - 1] == Marker(true) then Think else Regular)
    decreases |parts|
  {
    var n := |parts|;
    if n == 1 {
      assert parts[..0] == [];
    } else {
      var init := parts[..n - 2];
      AlternatingPrefix(parts);
      RenderedAlternating(init);
      assert parts[n - 1].Text? && parts[n - 2].Marker?;
      var opens, t := parts[n - 2].opens, parts[n - 1].text;
      assert parts == init + [Marker(opens), Text(t)];
      RenderedMarkerText(init, opens, t);
      TaggedStep(init, opens, t, Rendered(init));
    }
  }

  /** The tagging of a split, extended by one marker and one text. */
  lemma TaggedStep(init: seq<Part>, opens: bool, t: string, r: seq<Entry>)
    requires Alternating(init) && Alternating(init + [Marker(opens), Text(t)])
    requires |r| == (|init| + 1) / 2
    requires forall j :: 0 <= j < |r| ==>
      r[j] == Entry(init[2 * j].text, if j > 0 && init[2 * j - 1] == Marker(true) then Think else Regular)
    ensures var parts := init + [Marker(opens), Text(t)];
      var r' := r + [Entry(t, if opens then Think else Regular)];
      |r'| == (|parts| + 1) / 2 &&
      forall j :: 0 <= j < |r'| ==>
        r'[j] == Entry(parts[2 * j].text, if j > 0 && parts[2 * j - 1] == Marker(true) then Think else Regular)
  {
    var parts := init + [Marker(opens), Text(t)];
    var r' := r + [Entry(t, if opens then Think else Regular)];
    forall j | 0 <= j < |r'|
      ensures r'[j] == Entry(parts[2 * j].text, if j > 0 && parts[2 * j - 1] == Marker(true) then Think else Regular)
    {
      if j < |r| {
        assert parts[2 * j] == init[2 * j];
        if j > 0 {
          assert parts[2 * j - 1] == init[2 * j - 1];
        }
      } else {
        assert 2 * j == |parts| - 1;
      }
    }
  }

  /** Dropping the last marker and text of a split leaves a split. */
  lemma AlternatingPrefix(parts: seq<Part>)
    requires Alternating(parts) && |parts| > 1
    ensures Alternating(parts[..|parts| - 2])
  {
    var init := parts[..|parts| - 2];
    forall k | 0 <= k < |init| ensures init[k].Text? <==> k % 2 == 0 {
      assert init[k] == parts[k];
    }
  }

  /** A marker followed by a text logs that text tagged by that marker. */
  lemma RenderedMarkerText(init: seq<Part>, opens: bool, t: string)
    ensures Rendered(init + [Marker(opens), Text(t)]) ==
      Rendered(init) + [Entry(t, if opens then Think else Regular)]
  {
    var parts := init + [Marker(opens), Text(t)];
    var withMarker := init + [Marker(opens)];
    assert parts[..|parts| - 1] == withMarker;
    assert withMarker[..|withMarker| - 1] == init;
  }

  /** Markers are never logged: the logged texts are exactly the text pieces, in order. */
  lemma {:induction false} RenderedTexts(parts: seq<Part>)
    ensures EntryTexts(Rendered(parts)) == Texts(parts)
    decreases |parts|
  {
    if parts != [] {
      RenderedTexts(parts[..|parts| - 1]);
    }
  }

  lemma {:induction false} TextsAppend(a: seq<Part>, b: seq<Part>)
    ensures Texts(a + b) == Texts(a) + Texts(b)
    decreases |b|
  {
    if b == [] {
      assert a + b == a;
    } else {
      var n := |b| - 1;
      assert (a + b)[..|a + b| - 1] == a + b[..n];
      assert (a + b)[|a + b| - 1] == b[n];
      TextsAppend(a, b[..n]);
    }
  }

  /** Joined in order, the text pieces of the split are the reply without its markers. */
  lemma {:induction false} SplitTextsJoin(s: string)
    ensures Concat(Texts(SplitThink(s))) == RemoveMarkers(s)
    decreases |s|
  {
    var parts := SplitThink(s);
    if s == [] {
      assert Texts(parts) == [[]];
    } else if StartsWith(s, OPEN) {
      SplitTextsJoin(s[|OPEN|..]);
      MarkerTextsJoin(true, SplitThink(s[|OPEN|..]));
    } else if StartsWith(s, CLOSE) {
      SplitTextsJoin(s[|CLOSE|..]);
      MarkerTextsJoin(false, SplitThink(s[|CLOSE|..]));
    } else {
      var rest := SplitThink(s[1..]);
      SplitTextsJoin(s[1..]);
      assert rest == [rest[0]] + rest[1..];
      TextsAppend([rest[0]], rest[1..]);
      TextsAppend([Text([s[0]] + rest[0].text)], rest[1..]);
      assert Texts([rest[0]]) == [rest[0].text];
      ConcatAppend([rest[0].text], Texts(rest[1..]));
      ConcatAppend([[s[0]] + rest[0].text], Texts(rest[1..]));
    }
  }

  /** An empty text and a marker in front add nothing to the joined texts. */
  lemma MarkerTextsJoin(opens: bool, rest: seq<Part>)
    ensures Concat(Texts([Text([]), Marker(opens)] + rest)) == Concat(Texts(rest))
  {
    var head := [Text([]), Marker(opens)];
    TextsAppend(head, rest);
    assert Texts(head) == [[]] by {
      assert head[..1] == [Text([])];
      assert [Text([])][..0] == [];
      assert Texts(head) == Texts([Text([])]);
    }
    ConcatAppend([[]], Texts(rest));
  }

  /** Writing the pieces back in order, markers included, gives the reply itself. */
  lemma {:induction false} SplitRoundTrip(s: string)
    ensures Unsplit(SplitThink(s)) == s
    decreases |s|
  {
    if s == [] {
    } else if StartsWith(s, OPEN) {
      SplitRoundTrip(s[|OPEN|..]);
      MarkerRoundTrip(s, true);
    } else if StartsWith(s, CLOSE) {
      SplitRoundTrip(s[|CLOSE|..]);
      MarkerRoundTrip(s, false);
    } else {
      var rest := SplitThink(s[1..]);
      SplitRoundTrip(s[1..]);
      assert rest == [rest[0]] + rest[1..];
      UnsplitCons(rest[0], rest[1..]);
      UnsplitCons(Text([s[0]] + rest[0].text), rest[1..]);
      assert s == [s[0]] + s[1..];
    }
  }

  /** The round trip across a marker at the start of s, given it for what follows. */
  lemma MarkerRoundTrip(s: string, opens: bool)
    requires var marker := if opens then OPEN else CLOSE;
      StartsWith(s, marker) && Unsplit(SplitThink(s[|marker|..])) == s[|marker|..]
    ensures Unsplit([Text([]), Marker(opens)] + SplitThink(s[|if opens then OPEN else CLOSE|..])) == s
  {
    var marker := if opens then OPEN else CLOSE;
    var rest := SplitThink(s[|marker|..]);
    assert [Text([]), Marker(opens)] + rest == [Text([])] + ([Marker(opens)] + rest);
    UnsplitCons(Text([]), [Marker(opens)] + rest);
    UnsplitCons(Marker(opens), rest);
    assert s == marker + s[|marker|..];
  }

  lemma UnsplitCons(p: Part, rest: seq<Part>)
    ensures Unsplit([p] + rest) == PartString(p) + Unsplit(rest)
  {
    assert ([p] + rest)[1..] == rest;
  }

  /** The first text piece is a prefix of s in which no marker begins. */
  lemma {:induction false} SplitHead(s: string)
    ensures var t := SplitThink(s)[0].text;
      |t| <= |s| && s[..|t|] == t && forall i :: 0 <= i < |t| ==> !MarkerAt(s, i)
    decreases |s|
  {
    if s != [] && !StartsWith(s, OPEN) && !StartsWith(s, CLOSE) {
      SplitHead(s[1..]);
      var t := SplitThink(s)[0].text;
      var t' := SplitThink(s[1..])[0].text;
      assert t == [s[0]] + t';
      forall i | 0 <= i < |t| ensures !MarkerAt(s, i) {
        if i > 0 {
          assert !MarkerAt(s[1..], i - 1);
          assert s[i..] == s[1..][i - 1..];
        } else {
          assert s[0..] == s;
        }
      }
    }
  }

  /** No marker begins inside the first text piece. */
  lemma SplitHeadNoMarker(s: string)
    ensures NoMarker(SplitThink(s)[0].text)
  {
    SplitHead(s);
    var t := SplitThink(s)[0].text;
    forall i | 0 <= i < |t| ensures !MarkerAt(t, i) {
      assert !MarkerAt(s, i);
      PrefixKeepsStart(s, t, i, OPEN);
      PrefixKeepsStart(s, t, i, CLOSE);
    }
  }

  /** A string that starts inside a prefix t of s also starts there in s. */
  lemma PrefixKeepsStart(s: string, t: string, i: nat, p: string)
    requires |t| <= |s| && s[..|t|] == t && i <= |t|
    ensures StartsWith(t[i..], p) ==> StartsWith(s[i..], p)
  {
    if StartsWith(t[i..], p) {
      assert s[i..][..|p|] == t[i..][..|p|];
    }
  }

  /** No logged text contains a marker. */
  lemma {:induction false} SplitTextsHaveNoMarker(s: string)
    ensures var parts := SplitThink(s);
      forall k :: 0 <= k < |parts| && parts[k].Text? ==> NoMarker(parts[k].text)
    decreases |s|
  {
    var parts := SplitThink(s);
    if s == [] {
    } else if StartsWith(s, OPEN) || StartsWith(s, CLOSE) {
      var rest := s[if StartsWith(s, OPEN) then |OPEN| else |CLOSE|..];
      SplitTextsHaveNoMarker(rest);
      assert forall k :: 0 <= k < |SplitThink(rest)| && SplitThink(rest)[k].Text? ==>
        NoMarker(SplitThink(rest)[k].text);
      forall k | 0 <= k < |parts| && parts[k].Text? ensures NoMarker(parts[k].text) {
        if k >= 2 {
          assert parts[k] == SplitThink(rest)[k - 2];
        }
      }
    } else {
      var rest := SplitThink(s[1..]);
      SplitTextsHaveNoMarker(s[1..]);
      assert forall k :: 0 <= k < |SplitThink(s[1..])| && SplitThink(s[1..])[k].Text? ==>
        NoMarker(SplitThink(s[1..])[k].text);
      SplitHeadNoMarker(s);
      forall k | 0 <= k < |parts| && parts[k].Text? ensures NoMarker(parts[k].text) {
        if k > 0 {
          assert parts[k] == rest[k];
        }
      }
    }
  }

  /** A reply without markers is logged as one 'regular' piece: the whole reply. */
  lemma {:induction false} NoMarkerSingleRegular(s: string)
    requires NoMarker(s)
    ensures SplitThink(s) == [Text(s)]
    ensures Rendered(SplitThink(s)) == [Entry(s, Regular)]
    decreases |s|
  {
    if s != [] {
      assert !MarkerAt(s, 0);
      assert s[0..] == s;
      assert NoMarker(s[1..]) by {
        forall i | 0 <= i < |s[1..]| ensures !MarkerAt(s[1..], i) {
          assert !MarkerAt(s, i + 1);
          assert s[1..][i..] == s[i + 1..];
        }
      }
      NoMarkerSingleRegular(s[1..]);
      assert [s[0]] + s[1..] == s;
    }
    assert [Text(s)][..0] == [];
  }

  /** Markers set and clear the flag rather than nest: "<think><think>x" logs x as 'think'. */
  lemma RepeatedOpenExample()
    ensures Rendered(SplitThink("<think><think>x")) ==
      [Entry("", Regular), Entry("", Think), Entry("x", Think)]
  {
    var s := "<think><think>x";
    assert StartsWith(s, OPEN);
    assert s[|OPEN|..] == "<think>x";
    assert StartsWith("<think>x", OPEN);
    assert "<think>x"[|OPEN|..] == "x";
    assert !StartsWith("x", OPEN) && !StartsWith("x", CLOSE);
    assert SplitThink("x") == [Text("x")] by {
      assert "x"[1..] == [];
      assert SplitThink([]) == [Text([])];
      assert ["x"[0]] + [] == "x";
    }
    var parts := SplitThink(s);
    assert parts == [Text(""), Marker(true), Text(""), Marker(true), Text("x")];
    RenderedAlternating(parts);
  }

  /** "</think></think>y" leaves the flag cleared: y is logged as 'regular'. */
  lemma RepeatedCloseExample()
    ensures Rendered(SplitThink("</think></think>y")) ==
      [Entry("", Regular), Entry("", Regular), Entry("y", Regular)]
  {
    var s := "</think></think>y";
    assert s[..|OPEN|][1] != OPEN[1];
    assert StartsWith(s, CLOSE);
    assert s[|CLOSE|..] == "</think>y";
    assert "</think>y"[..|OPEN|][1] != OPEN[1];
    assert StartsWith("</think>y", CLOSE);
    assert "</think>y"[|CLOSE|..] == "y";
    assert !StartsWith("y", OPEN) && !StartsWith("y", CLOSE);
    assert SplitThink("y") == [Text("y")] by {
      assert "y"[1..] == [];
      assert SplitThink([]) == [Text([])];
      assert ["y"[0]] + [] == "y";
    }
    var parts := SplitThink(s);
    assert parts == [Text(""), Marker(false), Text(""), Marker(false), Text("y")];
    RenderedAlternating(parts);
  }
}
