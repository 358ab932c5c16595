/** The option-marker glyphs of a1.py:21-22 and what the compiled pattern
    does with them: findall, split, and the non-empty stripped segments. */
module Markers {
  import opened Text

  /** The outline numerals ① ② ③ ④ (U+2460..U+2463). */
  const Plain: string := "\U{2460}\U{2461}\U{2462}\U{2463}"

  /** The answer-indicating glyphs ● ⚫ ⬤ ❶ ❷ ❸ ❹ ❺ (ans_markers). */
  const Filled: string := "\U{25CF}\U{26AB}\U{2B24}\U{2776}\U{2777}\U{2778}\U{2779}\U{277A}"

  /** `any(am in m for am in ans_markers)` for a one-glyph match m. */
  predicate IsFilled(c: char) {
    c in Filled
  }

  /** Membership in the character class of marker_pattern. */
  predicate IsMarker(c: char) {
    c in Plain || IsFilled(c)
  }

  /** marker_pattern.findall(s): the marker glyphs of s, left to right. */
  function MarkersOf(s: string): (ms: string)
    ensures |ms| <= |s|
  {
    if s == [] then []
    else (if IsMarker(s[0]) then [s[0]] else []) + MarkersOf(s[1..])
  }

  /** findall returns glyphs only, and nothing exactly when s has no glyph. */
  lemma {:induction false} MarkersOfSpec(s: string)
    ensures forall k :: 0 <= k < |MarkersOf(s)| ==> IsMarker(MarkersOf(s)[k])
    ensures MarkersOf(s) == [] <==> GlyphFree(s)
  {
    if s != [] {
      MarkersOfSpec(s[1..]);
      assert forall k :: 1 <= k < |s| ==> s[k] == s[1..][k - 1];
    }
  }

  predicate GlyphFree(p: string) {
    forall k :: 0 <= k < |p| ==> !IsMarker(p[k])
  }

  /** marker_pattern.split(s): the pieces of s between markers, markers removed;
      one more piece than there are markers. */
  function SplitAtMarkers(s: string): (parts: seq<string>)
    ensures |parts| == |MarkersOf(s)| + 1
  {
    if s == [] then [[]]
    else
      var rest := SplitAtMarkers(s[1..]);
      if IsMarker(s[0]) then [[]] + rest
      else [[s[0]] + rest[0]] + rest[1..]
  }

  /** No piece of the split holds a glyph. */
  lemma {:induction false} SplitPiecesGlyphFree(s: string)
    ensures forall i :: 0 <= i < |SplitAtMarkers(s)| ==> GlyphFree(SplitAtMarkers(s)[i])
  {
    if s != [] {
      SplitPiecesGlyphFree(s[1..]);
      var rest := SplitAtMarkers(s[1..]);
      if !IsMarker(s[0]) {
        assert GlyphFree(rest[0]);
        assert GlyphFree([s[0]] + rest[0]);
      }
    }
  }

  /** Puts the markers back between the pieces: the inverse of splitting. */
  function Interleave(parts: seq<string>, ms: string): string
    requires |parts| == |ms| + 1
    decreases ms
  {
    if ms == [] then parts[0] else parts[0] + [ms[0]] + Interleave(parts[1..], ms[1..])
  }

  lemma InterleavePrepend(c: char, parts: seq<string>, ms: string)
    requires |parts| == |ms| + 1
    ensures Interleave([[c] + parts[0]] + parts[1..], ms) == [c] + Interleave(parts, ms)
  {
  }

  /** The first character of a non-empty text either opens a new piece (a
      glyph, kept among the markers) or joins the first piece. */
  lemma SplitCons(s: string)
    requires s != []
    ensures SplitAtMarkers(s) == (if IsMarker(s[0]) then [[]] + SplitAtMarkers(s[1..])
                                  else [[s[0]] + SplitAtMarkers(s[1..])[0]] + SplitAtMarkers(s[1..])[1..])
    ensures MarkersOf(s) == (if IsMarker(s[0]) then [s[0]] else []) + MarkersOf(s[1..])
  {
  }

  lemma InterleaveGlyph(c: char, parts: seq<string>, ms: string)
    requires |parts| == |ms| + 1
    ensures Interleave([[]] + parts, [c] + ms) == [c] + Interleave(parts, ms)
  {
    assert ([[]] + parts)[1..] == parts && ([c] + ms)[1..] == ms;
  }

  /** One step of the round trip, on pieces and markers given abstractly:
      the character c put in front of a text split into rest and rms. */
  lemma InterleaveCons(c: char, rest: seq<string>, rms: string, parts: seq<string>, ms: string)
    requires |rest| == |rms| + 1
    requires parts == (if IsMarker(c) then [[]] + rest else [[c] + rest[0]] + rest[1..])
    requires ms == (if IsMarker(c) then [c] else []) + rms
    ensures |parts| == |ms| + 1 && Interleave(parts, ms) == [c] + Interleave(rest, rms)
  {
    if IsMarker(c) {
      assert parts == [[]] + rest && ms == [c] + rms;
      InterleaveGlyph(c, rest, rms);
    } else {
      assert parts == [[c] + rest[0]] + rest[1..] && ms == rms;
      InterleavePrepend(c, rest, rms);
    }
  }

  lemma HeadTail(s: string, t: string)
    requires s != [] && t == s[1..]
    ensures [s[0]] + t == s
  {
  }

  /** Splitting at the markers loses nothing: the pieces and the markers
      interleave back into the original text. */
  lemma {:induction false} SplitRoundTrip(s: string)
    ensures Interleave(SplitAtMarkers(s), MarkersOf(s)) == s
  {
    if s != [] {
      SplitRoundTrip(s[1..]);
      SplitCons(s);
      InterleaveCons(s[0], SplitAtMarkers(s[1..]), MarkersOf(s[1..]), SplitAtMarkers(s), MarkersOf(s));
      HeadTail(s, Interleave(SplitAtMarkers(s[1..]), MarkersOf(s[1..])));
    }
  }

  /** `[p.strip() for p in parts if p.strip()]` (a1.py:44). */
  function OptionTexts(parts: seq<string>): (cs: seq<string>)
    ensures |cs| <= |parts|
  {
    if parts == [] then []
    else (if Strip(parts[0]) != [] then [Strip(parts[0])] else []) + OptionTexts(parts[1..])
  }

  /** The texts kept are non-empty and stripped; text ahead of the first
      glyph is kept, and becomes the first. */
  lemma {:induction false} OptionTextsSpec(parts: seq<string>)
    ensures forall c :: c in OptionTexts(parts) ==> c != [] && Trimmed(c)
    ensures parts != [] && Strip(parts[0]) != [] ==>
              OptionTexts(parts) != [] && OptionTexts(parts)[0] == Strip(parts[0])
  {
    if parts != [] {
      var head := if Strip(parts[0]) != [] then [Strip(parts[0])] else [];
      var rest := OptionTexts(parts[1..]);
      assert OptionTexts(parts) == head + rest;
      OptionTextsSpec(parts[1..]);
      StripSpec(parts[0]);
      assert forall c :: c in head + rest ==> c in head || c in rest;
    }
  }

  /** The comprehension is a filter: it keeps the stripped form of each
      non-blank piece, drops the blank ones, and keeps the order, piece by
      piece. */
  lemma {:induction false} OptionTextsFilter(a: seq<string>, b: seq<string>, p: string)
    ensures OptionTexts(a + b) == OptionTexts(a) + OptionTexts(b)
    ensures OptionTexts([p]) == if Strip(p) != [] then [Strip(p)] else []
  {
    assert [p][1..] == [];
    if a != [] {
      assert (a + b)[1..] == a[1..] + b;
      OptionTextsFilter(a[1..], b, p);
    } else {
      assert a + b == b;
    }
  }

  /** Pieces that are all non-blank are each kept, stripped, in order. */
  lemma {:induction false} OptionTextsOfNonBlank(xs: seq<string>)
    requires forall i :: 0 <= i < |xs| ==> Strip(xs[i]) != []
    ensures OptionTexts(xs) == seq(|xs|, i requires 0 <= i < |xs| => Strip(xs[i]))
  {
    if xs != [] {
      OptionTextsOfNonBlank(xs[1..]);
    }
  }

  /** When the text opens with a glyph and every later piece is non-blank,
      the i-th glyph gets the stripped piece that follows it. */
  lemma OptionTextsAligned(parts: seq<string>)
    requires |parts| >= 1 && Strip(parts[0]) == []
    requires forall i :: 1 <= i < |parts| ==> Strip(parts[i]) != []
    ensures OptionTexts(parts) == seq(|parts| - 1, i requires 0 <= i < |parts| - 1 => Strip(parts[i + 1]))
  {
    OptionTextsOfNonBlank(parts[1..]);
  }
}
