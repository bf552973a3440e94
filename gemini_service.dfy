/**
 * The parsing half of `GeminiService.extractProductInfo`: how the reply of the
 * search-grounded model is turned into a title, a list of image links and a list
 * of cited sources. The remote call itself is not modelled; its reply (or the
 * error it raised) is the input.
 */
module GeminiService {
  import opened Wrappers
  import opened Text
  import opened Types

  const TitleMarker := "TITLE:"
  const ImagesMarker := "IMAGES:"
  const UnknownTitle := "Unknown Product"
  const DefaultSourceTitle := "Source"

  // ---------------------------------------------------------------------------
  // The regular expressions /TITLE:\s*(.+)/i and /IMAGES:\s*(.+)/i
  // ---------------------------------------------------------------------------

  /** The marker (written in upper case) occurs at `k`, ignoring the case of ASCII letters. */
  predicate MarkerAt(text: string, marker: string, k: int) {
    && 0 <= k && k + |marker| <= |text|
    && forall i :: 0 <= i < |marker| ==> UpperChar(text[k + i]) == marker[i]
  }

  /** End of the run of white space starting at `j`: how far a greedy `\s*` reaches. */
  function SpaceRunEnd(text: string, j: nat): (e: nat)
    requires j <= |text|
    ensures j <= e <= |text|
    ensures forall i :: j <= i < e ==> IsSpace(text[i])
    ensures e == |text| || !IsSpace(text[e])
    decreases |text| - j
  {
    if j < |text| && IsSpace(text[j]) then SpaceRunEnd(text, j + 1) else j
  }

  /** End of the run of characters `.` accepts starting at `j`: how far a greedy `.+` reaches. */
  function LineEnd(text: string, j: nat): (e: nat)
    requires j <= |text|
    ensures j <= e <= |text|
    ensures forall i :: j <= i < e ==> !IsLineTerminator(text[i])
    ensures e == |text| || IsLineTerminator(text[e])
    decreases |text| - j
  {
    if j < |text| && !IsLineTerminator(text[j]) then LineEnd(text, j + 1) else j
  }

  /** The line starting at `p` ends at `e` when `[p, e)` holds no line terminator
      and `e` is the end of the text or a line terminator. */
  lemma LineEndAt(text: string, p: nat, e: nat)
    requires p <= e <= |text|
    requires forall i :: p <= i < e ==> !IsLineTerminator(text[i])
    requires e == |text| || IsLineTerminator(text[e])
    ensures LineEnd(text, p) == e
  {
  }

  /** The last index in `[lo, hi)` holding a character that `.` accepts. */
  function LastDotChar(text: string, lo: nat, hi: nat): (r: Option<nat>)
    requires lo <= hi <= |text|
    ensures r.Some? ==> lo <= r.value < hi && !IsLineTerminator(text[r.value])
    ensures r.Some? ==> forall i :: r.value < i < hi ==> IsLineTerminator(text[i])
    ensures r.None? ==> forall i :: lo <= i < hi ==> IsLineTerminator(text[i])
    decreases hi - lo
  {
    if lo == hi then None
    else if !IsLineTerminator(text[hi - 1]) then Some(hi - 1)
    else LastDotChar(text, lo, hi - 1)
  }

  /** `\s*` starting at `j` can stop at `p` and leave `.+` at least one character. */
  predicate CaptureCandidate(text: string, j: nat, p: nat) {
    j <= p < |text| && (forall i :: j <= i < p ==> IsSpace(text[i])) && !IsLineTerminator(text[p])
  }

  /** Where the group `(.+)` starts when `\s*` starts at `j`: the end of the
      white-space run if a character follows it, otherwise the last character of
      the run that `.` accepts. */
  function CaptureStart(text: string, j: nat): (r: Option<nat>)
    requires j <= |text|
    ensures r.Some? ==> j <= r.value < |text| && !IsLineTerminator(text[r.value])
  {
    var e := SpaceRunEnd(text, j);
    if e < |text| then
      LineTerminatorIsSpace(text[e]);
      Some(e)
    else
      LastDotChar(text, j, e)
  }

  /** The greedy `\s*` first takes the whole white-space run and then gives
      characters back one at a time, so the group starts at the LARGEST candidate,
      and there is none exactly when no candidate exists. */
  lemma CaptureStartIsLargestCandidate(text: string, j: nat)
    requires j <= |text|
    ensures CaptureStart(text, j).Some? ==> CaptureCandidate(text, j, CaptureStart(text, j).value)
    ensures CaptureStart(text, j).Some? ==>
      forall p: nat :: CaptureCandidate(text, j, p) ==> p <= CaptureStart(text, j).value
    ensures CaptureStart(text, j).None? <==> forall p: nat :: !CaptureCandidate(text, j, p)
  {
    var e := SpaceRunEnd(text, j);
    assert forall p: nat :: CaptureCandidate(text, j, p) ==> p <= e;
    if e < |text| {
      LineTerminatorIsSpace(text[e]);
      assert CaptureCandidate(text, j, e);
      assert CaptureStart(text, j) == Some(e);
    } else {
      var r := LastDotChar(text, j, e);
      assert CaptureStart(text, j) == r;
      if r.Some? {
        assert CaptureCandidate(text, j, r.value);
      } else {
        assert forall p: nat :: !CaptureCandidate(text, j, p);
      }
    }
  }

  /** The whole pattern matches at `k`. */
  predicate MatchAt(text: string, marker: string, k: int) {
    MarkerAt(text, marker, k) && CaptureStart(text, k + |marker|).Some?
  }

  /** The first position at or after `k` where the pattern matches. */
  function FindMatch(text: string, marker: string, k: nat): (r: Option<nat>)
    ensures r.Some? ==> k <= r.value && r.value + |marker| <= |text|
    decreases |text| - k
  {
    if k + |marker| > |text| then None
    else if MatchAt(text, marker, k) then Some(k)
    else FindMatch(text, marker, k + 1)
  }

  /** The search finds the leftmost match, and finds none exactly when there is none. */
  lemma {:induction false} FindMatchIsLeftmost(text: string, marker: string, k: nat)
    ensures FindMatch(text, marker, k).Some? ==> MatchAt(text, marker, FindMatch(text, marker, k).value)
    ensures FindMatch(text, marker, k).Some? ==>
      forall i :: k <= i < FindMatch(text, marker, k).value ==> !MatchAt(text, marker, i)
    ensures FindMatch(text, marker, k).None? <==> forall i :: k <= i ==> !MatchAt(text, marker, i)
    decreases |text| - k
  {
    if k + |marker| <= |text| && !MatchAt(text, marker, k) {
      FindMatchIsLeftmost(text, marker, k + 1);
    }
  }

  /** A match at `m` with none before it is the first match. */
  lemma FirstMatchAt(text: string, marker: string, m: nat)
    requires MatchAt(text, marker, m)
    requires forall k :: 0 <= k < m ==> !MatchAt(text, marker, k)
    ensures FindMatch(text, marker, 0) == Some(m)
  {
    FindMatchIsLeftmost(text, marker, 0);
    assert FindMatch(text, marker, 0).Some?;
  }

  /** The text `(.+)` captures when it starts at `p`: the rest of that line. */
  function GroupAt(text: string, p: nat): (g: string)
    requires p < |text| && !IsLineTerminator(text[p])
    ensures g != [] && forall i :: 0 <= i < |g| ==> !IsLineTerminator(g[i])
  {
    var e := LineEnd(text, p);
    assert forall i :: 0 <= i < e - p ==> text[p..e][i] == text[p + i];
    text[p..e]
  }

  /** `text.match(re)?.[1]`: the group of the first match, which runs to the end of its line. */
  function Capture(text: string, marker: string): (r: Option<string>)
    ensures r.None? <==> FindMatch(text, marker, 0).None?
    ensures r.Some? ==> r.value != [] && forall i :: 0 <= i < |r.value| ==> !IsLineTerminator(r.value[i])
  {
    FindMatchIsLeftmost(text, marker, 0);
    match FindMatch(text, marker, 0)
    case None => None
    case Some(k) => Some(GroupAt(text, CaptureStart(text, k + |marker|).value))
  }

  /** The capture of a known first match. */
  lemma {:induction false} CaptureOfMatch(text: string, marker: string, m: nat, p: nat)
    requires FindMatch(text, marker, 0) == Some(m)
    requires m + |marker| <= |text| && CaptureStart(text, m + |marker|) == Some(p)
    ensures Capture(text, marker) == Some(GroupAt(text, p))
  {
  }

  /** The group is the slice up to the end of its line. */
  lemma GroupIsLine(text: string, p: nat, e: nat)
    requires p < e <= |text| && !IsLineTerminator(text[p]) && LineEnd(text, p) == e
    ensures GroupAt(text, p) == text[p..e]
  {
  }

  // ---------------------------------------------------------------------------
  // Title
  // ---------------------------------------------------------------------------

  /** The trimmed capture after the first `TITLE:`, or "Unknown Product". The title
      never spans a line and never has white space at either end. */
  function TitleOf(text: string): (title: string)
    ensures Capture(text, TitleMarker).None? ==> title == UnknownTitle
    ensures Capture(text, TitleMarker).Some? ==>
      && (forall i :: 0 <= i < |title| ==> !IsLineTerminator(title[i]))
      && (title == [] || (!IsSpace(title[0]) && !IsSpace(title[|title| - 1])))
  {
    match Capture(text, TitleMarker)
    case None => UnknownTitle
    case Some(c) =>
      TrimShape(c);
      TrimKeepsOneLine(c);
      Trim(c)
  }

  /** The capture of a marker that first matches after `head`, followed by white
      space (which may span several lines) and then a line of text, is that line:
      the pattern is not anchored to a line, so a blank marker line takes its
      capture from the next non-blank line. */
  lemma {:induction false} CaptureAfter(head: string, marker: string, gap: string, t: string, tail: string)
    requires forall k :: 0 <= k < |head| ==> !MatchAt(head + marker + gap + t + tail, marker, k)
    requires Upper(marker) == marker
    requires forall c :: c in gap ==> IsSpace(c)
    requires t != [] && !IsSpace(t[0]) && forall c :: c in t ==> !IsLineTerminator(c)
    requires tail == [] || IsLineTerminator(tail[0])
    ensures Capture(head + marker + gap + t + tail, marker) == Some(t)
  {
    var text := head + marker + gap + t + tail;
    var pre := head + marker + gap;
    assert text == pre + (t + tail);
    MatchAfter(head, marker, gap, t + tail);
    GapCapture(head, marker, gap, t + tail);
    assert FindMatch(pre + (t + tail), marker, 0) == Some(|head|);
    assert |pre| == |head| + |marker| + |gap|;
    assert CaptureStart(pre + (t + tail), |head| + |marker|) == Some(|pre|);
    CaptureFromLine(pre, t, tail, marker, |head|);
    assert Capture(text, marker) == Some(t);
  }

  /** The group of a known first match that starts a line of text is that line. */
  lemma {:induction false} CaptureFromLine(pre: string, t: string, tail: string, marker: string, m: nat)
    requires m + |marker| <= |pre|
    requires t != []
    requires FindMatch(pre + (t + tail), marker, 0) == Some(m)
    requires CaptureStart(pre + (t + tail), m + |marker|) == Some(|pre|)
    requires forall c :: c in t ==> !IsLineTerminator(c)
    requires tail == [] || IsLineTerminator(tail[0])
    ensures Capture(pre + (t + tail), marker) == Some(t)
  {
    var text := pre + (t + tail);
    LineOf(pre, t, tail);
    GroupIsLine(text, |pre|, |pre| + |t|);
    MiddleSlice(pre, t, tail);
    CaptureOfMatch(text, marker, m, |pre|);
  }

  lemma MiddleSlice(a: string, b: string, c: string)
    ensures (a + (b + c))[|a|..|a| + |b|] == b
  {
  }

  /** The group of the marker right after `head` starts after `gap`. */
  lemma GapCapture(head: string, marker: string, gap: string, rest: string)
    requires forall c :: c in gap ==> IsSpace(c)
    requires rest != [] && !IsSpace(rest[0])
    ensures CaptureStart(head + marker + gap + rest, |head| + |marker|) == Some(|head| + |marker| + |gap|)
  {
    var text := head + marker + gap + rest;
    var j := |head| + |marker|;
    var p := j + |gap|;
    forall i | j <= i < p ensures IsSpace(text[i]) {
      assert text[i] == gap[i - j] && gap[i - j] in gap;
    }
    assert text[p] == rest[0];
    CaptureAfterSpaces(text, j, p);
  }

  /** The marker, written in upper case, matches itself. */
  lemma MarkerAfter(head: string, marker: string, rest: string)
    requires Upper(marker) == marker
    ensures MarkerAt(head + marker + rest, marker, |head|)
  {
    var text := head + marker + rest;
    var m := |head|;
    forall i | 0 <= i < |marker| ensures UpperChar(text[m + i]) == marker[i] {
      assert text[m + i] == marker[i];
      assert Upper(marker)[i] == UpperChar(marker[i]);
    }
  }

  /** The first match is right after `head`, and its group starts after `gap`. */
  lemma {:induction false} MatchAfter(head: string, marker: string, gap: string, rest: string)
    requires forall k :: 0 <= k < |head| ==> !MatchAt(head + marker + gap + rest, marker, k)
    requires Upper(marker) == marker
    requires forall c :: c in gap ==> IsSpace(c)
    requires rest != [] && !IsSpace(rest[0])
    ensures FindMatch(head + marker + gap + rest, marker, 0) == Some(|head|)
  {
    GapCapture(head, marker, gap, rest);
    assert head + marker + gap + rest == head + marker + (gap + rest);
    MarkerAfter(head, marker, gap + rest);
    FirstMatchAt(head + marker + gap + rest, marker, |head|);
  }

  /** After a white-space run that a non-space character ends, the group starts at
      that character. */
  lemma CaptureAfterSpaces(text: string, j: nat, p: nat)
    requires j <= p < |text| && !IsSpace(text[p])
    requires forall i :: j <= i < p ==> IsSpace(text[i])
    ensures CaptureStart(text, j) == Some(p)
  {
    SpaceRunEndAt(text, j, p);
  }

  /** The run of white space starting at `j` ends at the first non-space. */
  lemma SpaceRunEndAt(text: string, j: nat, p: nat)
    requires j <= p < |text| && !IsSpace(text[p])
    requires forall i :: j <= i < p ==> IsSpace(text[i])
    ensures SpaceRunEnd(text, j) == p
  {
  }

  /** A line without terminators, followed by the end of the text or a terminator,
      is where `.+` stops. */
  lemma {:induction false} LineOf(pre: string, t: string, tail: string)
    requires forall c :: c in t ==> !IsLineTerminator(c)
    requires tail == [] || IsLineTerminator(tail[0])
    ensures LineEnd(pre + (t + tail), |pre|) == |pre| + |t|
  {
    var text := pre + (t + tail);
    var p := |pre|;
    forall i | p <= i < p + |t| ensures !IsLineTerminator(text[i]) {
      assert text[i] == t[i - p] && t[i - p] in t;
    }
    if tail != [] {
      assert text[p + |t|] == tail[0];
    }
    LineEndAt(text, p, p + |t|);
  }

  /** A `TITLE:` line at the start of the reply gives its trimmed text. */
  lemma TitleAfterSpaces(gap: string, t: string, tail: string)
    requires forall c :: c in gap ==> IsSpace(c)
    requires t != [] && !IsSpace(t[0]) && forall c :: c in t ==> !IsLineTerminator(c)
    requires tail == [] || IsLineTerminator(tail[0])
    ensures TitleOf(TitleMarker + gap + t + tail) == Trim(t)
  {
    UpperUnchanged(TitleMarker);
    assert [] + TitleMarker == TitleMarker;
    CaptureAfter([], TitleMarker, gap, t, tail);
  }

  /** When only white space follows the marker and some of it is not a line
      terminator, `\s*` gives back the last such character, `(.+)` captures it
      together with the line terminators after it, and the title is empty rather
      than "Unknown Product". */
  lemma BlankTitleAtEnd(gap: string)
    requires forall c :: c in gap ==> IsSpace(c)
    requires exists i :: 0 <= i < |gap| && !IsLineTerminator(gap[i])
    ensures TitleOf(TitleMarker + gap) == ""
  {
    var text := TitleMarker + gap;
    var j := |TitleMarker|;
    assert text[..j] == TitleMarker;
    assert Upper(TitleMarker) == TitleMarker;
    assert MarkerAt(text, TitleMarker, 0);
    var i :| 0 <= i < |gap| && !IsLineTerminator(gap[i]);
    assert CaptureCandidate(text, j, j + i) by {
      forall k | j <= k < j + i ensures IsSpace(text[k]) {
        assert text[k] == gap[k - j] && gap[k - j] in gap;
      }
      assert text[j + i] == gap[i];
    }
    CaptureStartIsLargestCandidate(text, j);
    var p := CaptureStart(text, j).value;
    assert MatchAt(text, TitleMarker, 0);
    FirstMatchAt(text, TitleMarker, 0);
    var c := GroupAt(text, p);
    assert Capture(text, TitleMarker) == Some(c);
    GroupIsLine(text, p, LineEnd(text, p));
    forall k | 0 <= k < |c| ensures IsSpace(c[k]) {
      assert c[k] == text[p + k] == gap[p + k - j];
      assert gap[p + k - j] in gap;
    }
    TrimAllSpace(c);
  }

  /** When everything after the marker is a line terminator, `.+` has nothing to
      take, the pattern does not match, and the title is "Unknown Product". */
  lemma LineBreaksTitleAtEnd(gap: string)
    requires forall c :: c in gap ==> IsLineTerminator(c)
    ensures TitleOf(TitleMarker + gap) == UnknownTitle
  {
    var text := TitleMarker + gap;
    var j := |TitleMarker|;
    forall k: int | 0 <= k ensures !MatchAt(text, TitleMarker, k) {
      if k == 0 {
        forall p: nat ensures !CaptureCandidate(text, j, p) {
          if j <= p < |text| {
            assert text[p] == gap[p - j] && gap[p - j] in gap;
          }
        }
        CaptureStartIsLargestCandidate(text, j);
      } else if k + |TitleMarker| <= |text| {
        assert text[k + 5] == gap[k + 5 - j] && gap[k + 5 - j] in gap;
        assert UpperChar(text[k + 5]) != TitleMarker[5];
      }
    }
    FindMatchIsLeftmost(text, TitleMarker, 0);
  }

  /** Trimming a string that lies on one line leaves it on one line. */
  lemma TrimKeepsOneLine(s: string)
    requires forall i :: 0 <= i < |s| ==> !IsLineTerminator(s[i])
    ensures forall i :: 0 <= i < |Trim(s)| ==> !IsLineTerminator(Trim(s)[i])
  {
    TrimIsSlice(s);
    var k := |s| - |TrimStart(s)|;
    var r := Trim(s);
    forall i | 0 <= i < |r| ensures !IsLineTerminator(r[i]) {
      assert r[i] == s[k..k + |r|][i] == s[k + i];
    }
  }

  // ---------------------------------------------------------------------------
  // Images
  // ---------------------------------------------------------------------------

  /** `s.replace(/[\[\]]/g, '')`. */
  function StripBrackets(s: string): (r: string)
    ensures forall c :: c in r <==> c in s && c != '[' && c != ']'
    ensures '[' !in s && ']' !in s ==> r == s
    decreases |s|
  {
    if s == [] then []
    else
      var rest := StripBrackets(s[1..]);
      assert forall c :: c in s <==> c == s[0] || c in s[1..];
      if s[0] == '[' || s[0] == ']' then rest else [s[0]] + rest
  }

  /** The raw list: the capture split on `,`, each piece trimmed and stripped of brackets. */
  function RawImageUrls(capture: string): (urls: seq<string>)
    ensures |urls| == Count(capture, ',') + 1
    ensures forall i :: 0 <= i < |urls| ==> '[' !in urls[i] && ']' !in urls[i]
    ensures |urls| == |Split(capture, ',')|
    ensures forall i :: 0 <= i < |urls| ==> urls[i] == StripBrackets(Trim(Split(capture, ',')[i]))
  {
    var pieces := Split(capture, ',');
    SplitCount(capture, ',');
    seq(|pieces|, i requires 0 <= i < |pieces| => StripBrackets(Trim(pieces[i])))
  }

  /** The URL filter of `extractProductInfo`: an http(s) link whose lower-cased form names no thumbnail,
      icon, sprite or tracking pixel. */
  predicate IsUsableImage(url: string) {
    var lower := Lower(url);
    && StartsWith(url, "http")
    && !Contains(lower, "thumb")
    && !Contains(lower, "icon")
    && !Contains(lower, "sprite")
    && !Contains(lower, "pixel")
  }

  /** `rawImageUrls.filter(...)` with that test. */
  function UsableImages(urls: seq<string>): (r: seq<string>)
    ensures forall u :: u in r <==> u in urls && IsUsableImage(u)
    ensures IsSubsequence(r, urls)
  {
    Filter(urls, IsUsableImage)
  }

  /** One more URL at the end is kept exactly when it is usable, repeats included. */
  lemma UsableImagesAppend(urls: seq<string>, u: string)
    ensures UsableImages(urls + [u]) == UsableImages(urls) + (if IsUsableImage(u) then [u] else [])
  {
    FilterAppend(urls, u, IsUsableImage);
  }

  /** `Array.from(new Set(urls))` when the values in `seen` are already in the set:
      the first occurrence of every value not yet seen, in order. */
  function DedupFrom(urls: seq<string>, seen: set<string>): (r: seq<string>)
    ensures forall u :: u in r <==> u in urls && u !in seen
    ensures Distinct(r)
    decreases |urls|
  {
    if urls == [] then []
    else if urls[0] in seen then DedupFrom(urls[1..], seen)
    else [urls[0]] + DedupFrom(urls[1..], seen + {urls[0]})
  }

  function Dedup(urls: seq<string>): (r: seq<string>)
    ensures forall u :: u in r <==> u in urls
    ensures Distinct(r)
  {
    DedupFrom(urls, {})
  }

  /** The kept values appear in the order of their first occurrences. */
  lemma {:induction false} DedupFromOrder(urls: seq<string>, seen: set<string>)
    ensures forall i, j :: 0 <= i < j < |DedupFrom(urls, seen)| ==>
      FirstIndex(urls, DedupFrom(urls, seen)[i]) < FirstIndex(urls, DedupFrom(urls, seen)[j])
    decreases |urls|
  {
    if urls != [] {
      var r := DedupFrom(urls, seen);
      if urls[0] in seen {
        assert r == DedupFrom(urls[1..], seen);
        DedupFromOrder(urls[1..], seen);
        forall i, j | 0 <= i < j < |r| ensures FirstIndex(urls, r[i]) < FirstIndex(urls, r[j]) {
          assert r[i] in r && r[j] in r;
          assert r[i] !in seen && r[j] !in seen;
          FirstIndexOfTail(urls, r[i]);
          FirstIndexOfTail(urls, r[j]);
          assert FirstIndex(urls[1..], r[i]) < FirstIndex(urls[1..], r[j]);
        }
      } else {
        var seen' := seen + {urls[0]};
        var rest := DedupFrom(urls[1..], seen');
        DedupFromOrder(urls[1..], seen');
        assert r == [urls[0]] + rest;
        assert FirstIndex(urls, urls[0]) == 0;
        forall i, j | 0 <= i < j < |r| ensures FirstIndex(urls, r[i]) < FirstIndex(urls, r[j]) {
          assert r[j] == rest[j - 1] && rest[j - 1] in rest;
          FirstIndexOfTail(urls, r[j]);
          if i > 0 {
            assert r[i] == rest[i - 1] && rest[i - 1] in rest;
            FirstIndexOfTail(urls, r[i]);
            assert FirstIndex(urls[1..], rest[i - 1]) < FirstIndex(urls[1..], rest[j - 1]);
          }
        }
      }
    }
  }

  lemma FirstIndexOfTail(s: seq<string>, x: string)
    requires s != [] && x in s && x != s[0]
    ensures x in s[1..] && FirstIndex(s, x) == FirstIndex(s[1..], x) + 1
  {
  }

  lemma {:induction false} DedupFromSubsequence(urls: seq<string>, seen: set<string>)
    ensures IsSubsequence(DedupFrom(urls, seen), urls)
    decreases |urls|
  {
    if urls != [] {
      var r := DedupFrom(urls, seen);
      if urls[0] in seen {
        assert r == DedupFrom(urls[1..], seen);
        DedupFromSubsequence(urls[1..], seen);
        SubsequenceOfTail(r, urls);
      } else {
        var rest := DedupFrom(urls[1..], seen + {urls[0]});
        DedupFromSubsequence(urls[1..], seen + {urls[0]});
        assert r == [urls[0]] + rest;
        assert r[0] == urls[0] && r[1..] == rest;
        assert IsSubsequence(r[1..], urls[1..]);
        assert IsSubsequence(r, urls);
      }
    }
  }

  /** Removing brackets works piece by piece. */
  lemma {:induction false} StripBracketsAppend(a: string, b: string)
    ensures StripBrackets(a + b) == StripBrackets(a) + StripBrackets(b)
    decreases |a|
  {
    if a == [] {
      assert a + b == b;
    } else {
      assert (a + b)[0] == a[0] && (a + b)[1..] == a[1..] + b;
      StripBracketsAppend(a[1..], b);
    }
  }

  /** A link written in brackets loses exactly its brackets. */
  lemma StripBracketed(u: string)
    requires '[' !in u && ']' !in u
    ensures StripBrackets("[" + u + "]") == u
  {
    StripBracketsAppend("[" + u, "]");
    StripBracketsAppend("[", u);
    assert StripBrackets("[") == [] && StripBrackets("]") == [];
  }

  /** The image list of a reply: usable, distinct links in first-seen order. */
  function ImagesOf(text: string): (images: seq<string>)
    ensures Capture(text, ImagesMarker).None? ==> images == []
    ensures forall u :: u in images ==> IsUsableImage(u)
    ensures Distinct(images)
  {
    match Capture(text, ImagesMarker)
    case None => []
    case Some(c) => Dedup(UsableImages(RawImageUrls(c)))
  }

  /** With an `IMAGES:` match the list holds every usable raw link exactly once,
      in the order of first occurrence, as a subsequence of the filtered list. */
  lemma ImagesExact(text: string)
    requires Capture(text, ImagesMarker).Some?
    ensures var raw := RawImageUrls(Capture(text, ImagesMarker).value);
      var images := ImagesOf(text);
      && (forall u :: u in images <==> u in raw && IsUsableImage(u))
      && IsSubsequence(images, UsableImages(raw))
      && IsSubsequence(images, raw)
      && forall i, j :: 0 <= i < j < |images| ==>
           FirstIndex(UsableImages(raw), images[i]) < FirstIndex(UsableImages(raw), images[j])
  {
    var raw := RawImageUrls(Capture(text, ImagesMarker).value);
    var usable := UsableImages(raw);
    var images := ImagesOf(text);
    assert images == DedupFrom(usable, {});
    DedupFromSubsequence(usable, {});
    DedupFromOrder(usable, {});
    SubsequenceTrans(images, usable, raw);
  }

  /** A marker cannot start at `k` when the next character does not fold to the
      marker's second character. */
  lemma NoMarkerAt(text: string, marker: string, k: nat)
    requires |marker| >= 2 && k + 1 < |text|
    requires UpperChar(text[k + 1]) != marker[1]
    ensures !MatchAt(text, marker, k)
  {
    if k + |marker| <= |text| {
      assert Upper(text[k..k + |marker|])[1] == UpperChar(text[k + 1]);
    }
  }

  /** A sample reply, built from its parts:
      "TITLE: Widget\nIMAGES: [http://a.com/1.jpg], [http://a.com/thumb2.jpg]". */
  const WidgetLink := "http://a.com/1.jpg"
  const WidgetThumb := "http://a.com/thumb2.jpg"
  const WidgetImageList := "[" + WidgetLink + "]," + " [" + WidgetThumb + "]"
  const WidgetFirstLine := TitleMarker + " Widget\n"
  const WidgetReply := WidgetFirstLine + ImagesMarker + " " + WidgetImageList

  lemma WidgetTitle()
    ensures TitleOf(WidgetReply) == "Widget"
  {
    var tail := "\n" + ImagesMarker + " " + WidgetImageList;
    assert WidgetReply == TitleMarker + " " + "Widget" + tail;
    TitleAfterSpaces(" ", "Widget", tail);
    TrimUntrimmed("Widget");
  }

  /** No character of the first line, nor the `I` after it, folds to `M`, the
      second letter of `IMAGES:`, so the marker cannot start inside that line. */
  lemma WidgetNoEarlyImages(k: nat)
    requires k < |WidgetFirstLine|
    ensures !MatchAt(WidgetReply, ImagesMarker, k)
  {
    var head := WidgetFirstLine;
    var text := WidgetReply;
    assert text == head + (ImagesMarker + " " + WidgetImageList);
    if k + 1 < |head| {
      assert text[k + 1] == head[k + 1] && head[k + 1] in head;
    } else {
      assert text[k + 1] == ImagesMarker[0];
    }
    NoMarkerAt(text, ImagesMarker, k);
  }

  lemma WidgetImagesAt()
    ensures MatchAt(WidgetReply, ImagesMarker, |WidgetFirstLine|)
    ensures CaptureStart(WidgetReply, |WidgetFirstLine| + |ImagesMarker|) == Some(|WidgetFirstLine| + |ImagesMarker| + 1)
  {
    var text := WidgetReply;
    var m := |WidgetFirstLine|;
    var rest := ImagesMarker + " " + WidgetImageList;
    assert text == WidgetFirstLine + rest;
    assert text[m..m + |ImagesMarker|] == rest[..|ImagesMarker|] == ImagesMarker;
    UpperUnchanged(ImagesMarker);
    var j := m + |ImagesMarker|;
    assert text[j] == rest[|ImagesMarker|] == ' ';
    assert text[j + 1] == rest[|ImagesMarker| + 1] == '[';
    assert CaptureCandidate(text, j, j + 1);
  }

  /** A line with no terminator runs to the end of the text. */
  lemma LineEndOfLastLine(pre: string, line: string)
    requires forall c :: c in line ==> !IsLineTerminator(c)
    ensures LineEnd(pre + line, |pre|) == |pre + line|
  {
    var text := pre + line;
    forall i | |pre| <= i < |text| ensures !IsLineTerminator(text[i]) {
      assert text[i] == line[i - |pre|] && line[i - |pre|] in line;
    }
    LineEndAt(text, |pre|, |text|);
  }

  lemma WidgetImageCapture()
    ensures Capture(WidgetReply, ImagesMarker) == Some(WidgetImageList)
  {
    var head := WidgetFirstLine;
    assert WidgetReply == head + ImagesMarker + " " + WidgetImageList + "";
    forall k | 0 <= k < |head| ensures !MatchAt(head + ImagesMarker + " " + WidgetImageList + "", ImagesMarker, k) {
      WidgetNoEarlyImages(k);
    }
    UpperUnchanged(ImagesMarker);
    CaptureAfter(head, ImagesMarker, " ", WidgetImageList, "");
  }

  /** The two pieces of the sample reply's image list, as `split(',')` yields them. */
  const WidgetPieces := ["[" + WidgetLink + "]", " [" + WidgetThumb + "]"]

  lemma WidgetSplit()
    ensures Split(WidgetImageList, ',') == WidgetPieces
  {
    var p1 := WidgetPieces[0];
    var p2 := WidgetPieces[1];
    assert WidgetImageList == p1 + [','] + p2;
    SplitPrefix(p1, p2, ',');
    SplitNoSeparator(p2, ',');
  }

  lemma WidgetCleanPieces()
    ensures StripBrackets(Trim(WidgetPieces[0])) == WidgetLink
    ensures StripBrackets(Trim(WidgetPieces[1])) == WidgetThumb
  {
    var p1 := WidgetPieces[0];
    var p2 := WidgetPieces[1];
    TrimUntrimmed(p1);
    assert TrimStart(p2) == TrimStart(p2[1..]);
    assert p2[1..] == "[" + WidgetThumb + "]";
    TrimUntrimmed(p2[1..]);
    StripBracketed(WidgetLink);
    StripBracketed(WidgetThumb);
  }

  lemma WidgetRawUrls()
    ensures RawImageUrls(WidgetImageList) == [WidgetLink, WidgetThumb]
  {
    WidgetSplit();
    WidgetCleanPieces();
  }

  lemma WidgetFilter()
    ensures IsUsableImage(WidgetLink) && !IsUsableImage(WidgetThumb)
  {
    LowerUnchanged(WidgetLink);
    LowerUnchanged(WidgetThumb);
    MissingCharNotContained(WidgetLink, "thumb", 'u');
    MissingCharNotContained(WidgetLink, "icon", 'i');
    MissingCharNotContained(WidgetLink, "sprite", 's');
    MissingCharNotContained(WidgetLink, "pixel", 'x');
    assert OccursAt(WidgetThumb, "thumb", 13);
  }

  lemma WidgetImages()
    ensures ImagesOf(WidgetReply) == [WidgetLink]
  {
    WidgetImageCapture();
    WidgetRawUrls();
    WidgetFilter();
    var links := [WidgetLink, WidgetThumb];
    assert links[1..] == [WidgetThumb];
    assert UsableImages([WidgetThumb]) == [];
    assert UsableImages(links) == [WidgetLink];
    assert DedupFrom([WidgetLink], {}) == [WidgetLink] + DedupFrom([], {WidgetLink});
  }

  // ---------------------------------------------------------------------------
  // Sources
  // ---------------------------------------------------------------------------

  /** The `web` part of a grounding chunk; either field may be missing. */
  datatype WebRef = WebRef(title: Option<string>, uri: Option<string>)
  datatype Chunk = Chunk(web: Option<WebRef>)

  function SourceOf(w: WebRef): (s: Source)
    ensures s.title != []
    ensures Present(w.title) ==> s.title == w.title.value
    ensures !Present(w.title) ==> s.title == DefaultSourceTitle
    ensures Present(w.uri) ==> s.uri == w.uri.value
    ensures !Present(w.uri) ==> s.uri == ""
  {
    Source(OrDefault(w.title, DefaultSourceTitle), OrDefault(w.uri, ""))
  }

  /** The chunks that carry `web`, in order, each mapped to a source. */
  function SourcesOf(chunks: seq<Chunk>): (r: seq<Source>)
    ensures |r| <= |chunks|
    ensures forall s :: s in r ==> s.title != []
    ensures (forall c :: c in chunks ==> c.web.None?) ==> r == []
    decreases |chunks|
  {
    if chunks == [] then []
    else
      var rest := SourcesOf(chunks[1..]);
      assert forall c :: c in chunks[1..] ==> c in chunks;
      match chunks[0].web
      case None => rest
      case Some(w) => [SourceOf(w)] + rest
  }

  /** Filtering and mapping distributes over concatenation. */
  lemma {:induction false} SourcesAppend(a: seq<Chunk>, b: seq<Chunk>)
    ensures SourcesOf(a + b) == SourcesOf(a) + SourcesOf(b)
    decreases |a|
  {
    if a != [] {
      assert (a + b)[1..] == a[1..] + b;
      SourcesAppend(a[1..], b);
    } else {
      assert a + b == b;
    }
  }

  /** When every chunk carries `web`, the sources are exactly their mapped values. */
  lemma {:induction false} SourcesAllWeb(chunks: seq<Chunk>)
    requires forall c :: c in chunks ==> c.web.Some?
    ensures |SourcesOf(chunks)| == |chunks|
    ensures forall i :: 0 <= i < |chunks| ==> SourcesOf(chunks)[i] == SourceOf(chunks[i].web.value)
    decreases |chunks|
  {
    if chunks != [] {
      assert forall c :: c in chunks[1..] ==> c in chunks;
      SourcesAllWeb(chunks[1..]);
    }
  }

  // ---------------------------------------------------------------------------
  // The whole parse
  // ---------------------------------------------------------------------------

  /** Whatever the call raised; `message` is "" when the thrown value has none. */
  datatype ErrorValue = ErrorValue(message: string)

  /** The reply of the remote call: its text (possibly missing) and the grounding
      chunks of its first candidate (empty when missing), or the error it raised. */
  datatype Reply =
    | Responded(text: Option<string>, chunks: seq<Chunk>)
    | Raised(error: ErrorValue)

  datatype ProductInfo = ProductInfo(images: seq<string>, title: string, sources: seq<Source>)

  function ExtractProductInfo(reply: Reply): (r: Result<ProductInfo, ErrorValue>)
    ensures r.Err? <==> reply.Raised?
    ensures reply.Raised? ==> r.error == reply.error
    ensures r.Ok? ==>
      && Distinct(r.value.images)
      && (forall u :: u in r.value.images ==> IsUsableImage(u))
      && (forall s :: s in r.value.sources ==> s.title != [])
    ensures reply.Responded? ==>
      r == Ok(ProductInfo(ImagesOf(OrDefault(reply.text, "")), TitleOf(OrDefault(reply.text, "")), SourcesOf(reply.chunks)))
  {
    match reply
    case Raised(e) => Err(e)
    case Responded(text, chunks) =>
      var t := OrDefault(text, "");
      Ok(ProductInfo(ImagesOf(t), TitleOf(t), SourcesOf(chunks)))
  }

  /** A reply without text parses as an empty reply: no images and the default title. */
  lemma MissingTextDefaults(chunks: seq<Chunk>)
    ensures ExtractProductInfo(Responded(None, chunks)) == Ok(ProductInfo([], UnknownTitle, SourcesOf(chunks)))
  {
    FindMatchIsLeftmost("", TitleMarker, 0);
    FindMatchIsLeftmost("", ImagesMarker, 0);
  }

  /** The sample reply, parsed end to end. */
  lemma WidgetExtract(chunks: seq<Chunk>)
    ensures ExtractProductInfo(Responded(Some(WidgetReply), chunks))
         == Ok(ProductInfo([WidgetLink], "Widget", SourcesOf(chunks)))
  {
    WidgetTitle();
    WidgetImages();
  }
}
