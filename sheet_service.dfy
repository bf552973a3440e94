/**
 * Spreadsheet ingestion (services/sheetService.ts): the share-URL analysis of
 * `getCsvUrl`, the line tokenizer `parseCsvLine`, and `fetchSheet` from the
 * fetched text onward (line splitting, blank-line filter, header-row detection,
 * and zipping each data line against the headers).
 */
module SheetService {
  import opened Wrappers
  import opened Text
  import opened Types

  // ---------------------------------------------------------------------------
  // getCsvUrl: document identifier and tab (gid)
  // ---------------------------------------------------------------------------

  /** The class [a-zA-Z0-9-_] of the identifier pattern. */
  predicate IsIdChar(c: char) {
    ('a' <= c <= 'z') || ('A' <= c <= 'Z') || ('0' <= c <= '9') || c == '-' || c == '_'
  }

  /** The pattern /\/d\/([a-zA-Z0-9-_]+)/ matches starting at index k. */
  predicate IdSegmentAt(url: string, k: int) {
    0 <= k && k + 3 < |url| && url[k..k + 3] == "/d/" && IsIdChar(url[k + 3])
  }

  predicate HasIdSegment(url: string) {
    exists k | 0 <= k < |url| :: IdSegmentAt(url, k)
  }

  /** End of the run of identifier characters that starts at j (the greedy `+`). */
  function IdRunEnd(url: string, j: nat): (e: nat)
    requires j <= |url|
    ensures j <= e <= |url|
    ensures forall i :: j <= i < e ==> IsIdChar(url[i])
    ensures e == |url| || !IsIdChar(url[e])
    decreases |url| - j
  {
    if j < |url| && IsIdChar(url[j]) then IdRunEnd(url, j + 1) else j
  }

  /** Where the leftmost match of the identifier pattern at or after index k starts. */
  function FindIdSegment(url: string, k: nat): (r: Option<nat>)
    requires k <= |url|
    ensures r.None? <==> forall i :: k <= i < |url| ==> !IdSegmentAt(url, i)
    ensures r.Some? ==> k <= r.value < |url| && IdSegmentAt(url, r.value)
    ensures r.Some? ==> forall j :: k <= j < r.value ==> !IdSegmentAt(url, j)
    decreases |url| - k
  {
    if k + 3 >= |url| then None
    else if IdSegmentAt(url, k) then Some(k)
    else FindIdSegment(url, k + 1)
  }

  /** The captured document identifier, if the share URL has one. */
  function SheetId(url: string): (r: Option<string>)
    ensures r.None? <==> !HasIdSegment(url)
    ensures r.Some? ==> r.value != [] && forall c :: c in r.value ==> IsIdChar(c)
  {
    match FindIdSegment(url, 0)
    case None => None
    case Some(k) => Some(url[k + 3..IdRunEnd(url, k + 3)])
  }

  /** What the WHATWG URL parser yields for a share URL that it accepts: the
      query after `?` and the fragment after `#`, each without its leading mark. */
  datatype UrlParts = UrlParts(query: string, fragment: string)

  /** The document and tab an export URL asks for; `gid` is `None` when the
      share URL could not be parsed and the export URL carries no tab. */
  datatype ExportTarget = ExportTarget(id: string, gid: Option<string>)

  /** Name of one `name=value` piece of a query: the text before the first `=`. */
  function ParamName(piece: string): string {
    Split(piece, '=')[0]
  }

  /** Value of one query piece: the text after the first `=`, or empty. */
  function ParamValue(piece: string): string {
    var n := ParamName(piece);
    JoinSplit(piece, '=');
    if |n| < |piece| then piece[|n| + 1..] else []
  }

  /** `new URLSearchParams(query).get(name)` over the `&`-separated pieces. */
  function FirstParam(pieces: seq<string>, name: string): (r: Option<string>)
    ensures r.None? <==> forall k :: 0 <= k < |pieces| ==> ParamName(pieces[k]) != name
    decreases |pieces|
  {
    if pieces == [] then None
    else if ParamName(pieces[0]) == name then Some(ParamValue(pieces[0]))
    else FirstParam(pieces[1..], name)
  }

  function ParamGet(query: string, name: string): Option<string> {
    FirstParam(Split(query, '&'), name)
  }

  /** The tab: the query's `gid` if non-empty, else the fragment's, else "0". */
  function GidOf(parts: UrlParts): (gid: string)
    ensures Present(ParamGet(parts.query, "gid")) ==> gid == ParamGet(parts.query, "gid").value
    ensures !Present(ParamGet(parts.query, "gid")) && Present(ParamGet(parts.fragment, "gid"))
      ==> gid == ParamGet(parts.fragment, "gid").value
    ensures !Present(ParamGet(parts.query, "gid")) && !Present(ParamGet(parts.fragment, "gid"))
      ==> gid == "0"
    ensures gid != []
  {
    var fromQuery := ParamGet(parts.query, "gid");
    var gid := if Present(fromQuery) then fromQuery else ParamGet(parts.fragment, "gid");
    if Present(gid) then gid.value else "0"
  }

  /** `getCsvUrl`: `None` stands for the empty string the source returns; the
      outcome of `new URL(sheetUrl)` is the parameter `parsed`. */
  function GetCsvUrl(sheetUrl: string, parsed: Option<UrlParts>): (r: Option<ExportTarget>)
    ensures r.None? <==> !HasIdSegment(sheetUrl)
    ensures r.Some? ==> Some(r.value.id) == SheetId(sheetUrl)
    ensures r.Some? ==> (r.value.gid.None? <==> parsed.None?)
    ensures r.Some? && parsed.Some? ==> r.value.gid == Some(GidOf(parsed.value))
  {
    match SheetId(sheetUrl)
    case None => None
    case Some(id) =>
      match parsed
      case None => Some(ExportTarget(id, None))
      case Some(parts) => Some(ExportTarget(id, Some(GidOf(parts))))
  }

  /** The identifier is found at the leftmost `/d/` followed by an identifier
      character, and runs to the first character outside the class. */
  lemma SheetIdAtLeftmost(url: string, p: nat, n: nat)
    requires IdSegmentAt(url, p)
    requires forall k :: 0 <= k < p ==> !IdSegmentAt(url, k)
    requires p + 3 + n <= |url|
    requires forall i :: p + 3 <= i < p + 3 + n ==> IsIdChar(url[i])
    requires p + 3 + n == |url| || !IsIdChar(url[p + 3 + n])
    ensures SheetId(url) == Some(url[p + 3..p + 3 + n])
  {
    FindIdSegmentSkips(url, 0, p);
    IdRunOver(url, p + 3, n);
  }

  /** A share URL `prefix/d/<id><rest>` yields `id`, provided nothing in the
      prefix already looks like a `/d/` segment and `rest` does not continue the id. */
  lemma SheetIdOfShareUrl(prefix: string, id: string, rest: string)
    requires id != [] && forall c :: c in id ==> IsIdChar(c)
    requires !Contains(prefix + "/", "/d/")
    requires rest == [] || !IsIdChar(rest[0])
    ensures SheetId(prefix + "/d/" + id + rest) == Some(id)
  {
    var url := prefix + "/d/" + id + rest;
    var p := |prefix|;
    assert url[p..p + 3] == "/d/";
    assert url[p + 3] == id[0];
    forall k | 0 <= k < p
      ensures !IdSegmentAt(url, k)
    {
      if k + 2 <= p {
        assert url[k..k + 3] == (prefix + "/")[k..k + 3];
        assert !OccursAt(prefix + "/", "/d/", k);
      } else {
        assert url[k..k + 3][1] == '/';
      }
    }
    assert FindIdSegment(url, 0) == Some(p) by {
      FindIdSegmentSkips(url, 0, p);
    }
    forall i | p + 3 <= i < p + 3 + |id|
      ensures IsIdChar(url[i])
    {
      assert url[i] == id[i - p - 3];
    }
    IdRunOver(url, p + 3, |id|);
    assert url[p + 3..p + 3 + |id|] == id;
  }

  lemma {:induction false} FindIdSegmentSkips(url: string, k: nat, p: nat)
    requires k <= p < |url| && IdSegmentAt(url, p)
    requires forall i :: k <= i < p ==> !IdSegmentAt(url, i)
    ensures FindIdSegment(url, k) == Some(p)
    decreases p - k
  {
    if k < p {
      FindIdSegmentSkips(url, k + 1, p);
    }
  }

  lemma {:induction false} IdRunOver(url: string, j: nat, n: nat)
    requires j + n <= |url|
    requires forall i :: j <= i < j + n ==> IsIdChar(url[i])
    requires j + n == |url| || !IsIdChar(url[j + n])
    ensures IdRunEnd(url, j) == j + n
    decreases n
  {
    if n > 0 {
      IdRunOver(url, j + 1, n - 1);
    }
  }

  /** The query string a list of (name, value) pairs encodes to. */
  function EncodeQuery(pairs: seq<(string, string)>): string
    decreases |pairs|
  {
    if pairs == [] then []
    else if |pairs| == 1 then pairs[0].0 + "=" + pairs[0].1
    else pairs[0].0 + "=" + pairs[0].1 + "&" + EncodeQuery(pairs[1..])
  }

  /** Looking a name up in an encoded query finds the value of its first pair. */
  lemma {:induction false} ParamGetEncoded(pairs: seq<(string, string)>, name: string)
    requires forall k :: 0 <= k < |pairs| ==> '&' !in pairs[k].0 && '=' !in pairs[k].0 && '&' !in pairs[k].1
    ensures ParamGet(EncodeQuery(pairs), name) ==
      if exists k :: 0 <= k < |pairs| && pairs[k].0 == name
      then Some(pairs[FirstPairIndex(pairs, name)].1)
      else (if pairs == [] && name == [] then Some([]) else None)
    decreases |pairs|
  {
    if pairs == [] {
      assert Split([], '&') == [[]];
      assert ParamName([]) == [];
    } else {
      var piece := pairs[0].0 + "=" + pairs[0].1;
      PieceNameValue(pairs[0].0, pairs[0].1);
      if |pairs| == 1 {
        SplitNoSeparator(piece, '&');
      } else {
        ParamGetEncoded(pairs[1..], name);
        SplitPrefix(piece, EncodeQuery(pairs[1..]), '&');
        assert piece + "&" + EncodeQuery(pairs[1..]) == EncodeQuery(pairs);
        if pairs[0].0 != name {
          assert Split(EncodeQuery(pairs), '&')[1..] == Split(EncodeQuery(pairs[1..]), '&');
          if exists k :: 0 <= k < |pairs| && pairs[k].0 == name {
            var k :| 0 <= k < |pairs| && pairs[k].0 == name;
            assert pairs[1..][k - 1].0 == name;
          }
          if exists k :: 0 <= k < |pairs[1..]| && pairs[1..][k].0 == name {
            var k :| 0 <= k < |pairs[1..]| && pairs[1..][k].0 == name;
            assert pairs[k + 1].0 == name;
          }
        }
      }
    }
  }

  /** Index of the first pair called `name`. */
  function FirstPairIndex(pairs: seq<(string, string)>, name: string): (k: nat)
    requires exists k :: 0 <= k < |pairs| && pairs[k].0 == name
    ensures k < |pairs| && pairs[k].0 == name
    decreases |pairs|
  {
    if pairs[0].0 == name then 0
    else
      var k :| 0 <= k < |pairs| && pairs[k].0 == name;
      assert pairs[1..][k - 1].0 == name;
      1 + FirstPairIndex(pairs[1..], name)
  }

  lemma PieceNameValue(name: string, value: string)
    requires '=' !in name
    ensures ParamName(name + "=" + value) == name
    ensures ParamValue(name + "=" + value) == value
  {
    SplitPrefix(name, value, '=');
    assert name + "=" + value == name + ['='] + value;
  }

  // ---------------------------------------------------------------------------
  // parseCsvLine
  // ---------------------------------------------------------------------------

  /** The tokenizer's state machine. `rest` is the unread part of the line,
      `inQuotes` the quote flag, `cur` the field being read and `done` the
      fields already emitted. Every field is trimmed when it is emitted. */
  function Scan(rest: string, inQuotes: bool, cur: string, done: seq<string>): (r: seq<string>)
    ensures |r| > |done|
    decreases |rest|
  {
    if rest == [] then done + [Trim(cur)]
    else if rest[0] == '"' then
      if inQuotes && |rest| > 1 && rest[1] == '"' then Scan(rest[2..], inQuotes, cur + ['"'], done)
      else Scan(rest[1..], !inQuotes, cur, done)
    else if rest[0] == ',' && !inQuotes then Scan(rest[1..], inQuotes, [], done + [Trim(cur)])
    else Scan(rest[1..], inQuotes, cur + [rest[0]], done)
  }

  /** The cells of one line; there is always at least one. */
  function Fields(line: string): (r: seq<string>)
    ensures |r| >= 1
  {
    Scan(line, false, [], [])
  }

  /** `parseCsvLine`: an index loop that may skip a second character. */
  method ParseCsvLine(line: string) returns (result: seq<string>)
    ensures result == Fields(line)
  {
    result := [];
    var curVal := "";
    var inQuotes := false;
    var i := 0;
    while i < |line|
      invariant 0 <= i <= |line|
      invariant Scan(line[i..], inQuotes, curVal, result) == Fields(line)
    {
      var ch := line[i];
      assert line[i..][0] == ch;
      if ch == '"' {
        if inQuotes && i + 1 < |line| && line[i + 1] == '"' {
          assert line[i..][1] == line[i + 1];
          assert line[i..][2..] == line[i + 2..];
          curVal := curVal + ['"'];
          i := i + 1;
        } else {
          assert line[i..][1..] == line[i + 1..];
          inQuotes := !inQuotes;
        }
      } else if ch == ',' && !inQuotes {
        assert line[i..][1..] == line[i + 1..];
        result := result + [Trim(curVal)];
        curVal := "";
      } else {
        assert line[i..][1..] == line[i + 1..];
        curVal := curVal + [ch];
      }
      i := i + 1;
    }
    result := result + [Trim(curVal)];
  }

  /** Every cell trimmed. */
  function TrimAll(cells: seq<string>): (r: seq<string>)
    ensures |r| == |cells|
    decreases |cells|
  {
    if cells == [] then [] else [Trim(cells[0])] + TrimAll(cells[1..])
  }

  /** `cur` glued onto the first of `pieces`. */
  function PrependFirst(cur: string, pieces: seq<string>): seq<string>
    requires |pieces| >= 1
  {
    [cur + pieces[0]] + pieces[1..]
  }

  lemma {:induction false} ScanPlain(rest: string, cur: string, done: seq<string>)
    requires '"' !in rest
    ensures Scan(rest, false, cur, done) == done + TrimAll(PrependFirst(cur, Split(rest, ',')))
    decreases |rest|
  {
    if rest == [] {
      assert Split(rest, ',') == [[]];
      assert cur + [] == cur;
      assert PrependFirst(cur, Split(rest, ',')) == [cur];
      assert TrimAll([cur]) == [Trim(cur)];
    } else {
      assert rest[0] in rest;
      assert '"' !in rest[1..] by { assert forall c :: c in rest[1..] ==> c in rest; }
      var tail := Split(rest[1..], ',');
      if rest[0] == ',' {
        ScanPlain(rest[1..], [], done + [Trim(cur)]);
        assert Scan(rest, false, cur, done) == Scan(rest[1..], false, [], done + [Trim(cur)]);
        PrependAtComma(rest, cur);
        TrimAllCons(cur, tail);
        assert done + [Trim(cur)] + TrimAll(tail) == done + ([Trim(cur)] + TrimAll(tail));
      } else {
        ScanPlain(rest[1..], cur + [rest[0]], done);
        assert Scan(rest, false, cur, done) == Scan(rest[1..], false, cur + [rest[0]], done);
        PrependAtOther(rest, cur);
      }
    }
  }

  lemma PrependAtComma(rest: string, cur: string)
    requires rest != [] && rest[0] == ','
    ensures PrependFirst([], Split(rest[1..], ',')) == Split(rest[1..], ',')
    ensures PrependFirst(cur, Split(rest, ',')) == [cur] + Split(rest[1..], ',')
  {
    var tail := Split(rest[1..], ',');
    assert [] + tail[0] == tail[0];
    assert tail == [tail[0]] + tail[1..];
    assert Split(rest, ',') == [[]] + tail;
    assert cur + [] == cur;
    assert ([[]] + tail)[1..] == tail;
  }

  lemma PrependAtOther(rest: string, cur: string)
    requires rest != [] && rest[0] != ','
    ensures PrependFirst(cur, Split(rest, ',')) == PrependFirst(cur + [rest[0]], Split(rest[1..], ','))
  {
    var tail := Split(rest[1..], ',');
    var first := [rest[0]] + tail[0];
    var pieces := [first] + tail[1..];
    assert Split(rest, ',') == pieces;
    assert pieces[0] == first && pieces[1..] == tail[1..];
    assert cur + first == cur + [rest[0]] + tail[0];
  }

  lemma TrimAllCons(cell: string, cells: seq<string>)
    ensures TrimAll([cell] + cells) == [Trim(cell)] + TrimAll(cells)
  {
    assert ([cell] + cells)[1..] == cells;
  }

  /** A line without quote characters splits at every comma, each cell trimmed,
      so it has one cell more than it has commas. */
  lemma FieldsWithoutQuotes(line: string)
    requires '"' !in line
    ensures Fields(line) == TrimAll(Split(line, ','))
    ensures |Fields(line)| == Count(line, ',') + 1
  {
    ScanPlain(line, [], []);
    var pieces := Split(line, ',');
    assert [] + pieces[0] == pieces[0];
    assert pieces == [pieces[0]] + pieces[1..];
    assert PrependFirst([], pieces) == pieces;
    SplitCount(line, ',');
  }

  /** A field's content written for a quoted field: every `"` doubled. */
  function Escape(s: string): (r: string)
    decreases |s|
  {
    if s == [] then []
    else if s[0] == '"' then "\"\"" + Escape(s[1..])
    else [s[0]] + Escape(s[1..])
  }

  /** A field written between quotes with its quotes doubled. */
  function Quote(s: string): string {
    "\"" + Escape(s) + "\""
  }

  /** Inside quotes, an escaped field is read back verbatim, commas included,
      and its closing quote ends the quoted section. */
  lemma {:induction false} ScanQuoted(s: string, rest: string, cur: string, done: seq<string>)
    requires rest == [] || rest[0] != '"'
    ensures Scan(Escape(s) + "\"" + rest, true, cur, done) == Scan(rest, false, cur + s, done)
    decreases |s|
  {
    var input := Escape(s) + "\"" + rest;
    if s == [] {
      assert input == ['"'] + rest;
      assert input[1..] == rest;
      assert cur + s == cur;
    } else {
      var tail := Escape(s[1..]) + "\"" + rest;
      ScanQuoted(s[1..], rest, cur + [s[0]], done);
      assert cur + [s[0]] + s[1..] == cur + s;
      if s[0] == '"' {
        assert input == ['"', '"'] + tail;
        assert input[2..] == tail;
        assert Scan(input, true, cur, done) == Scan(tail, true, cur + [s[0]], done);
      } else {
        assert input == [s[0]] + tail;
        assert input[1..] == tail;
        assert Scan(input, true, cur, done) == Scan(tail, true, cur + [s[0]], done);
      }
    }
  }

  /** The fields of a record written with every field quoted and escaped. */
  function EncodeRecord(fields: seq<string>): string
    decreases |fields|
  {
    if fields == [] then []
    else if |fields| == 1 then Quote(fields[0])
    else Quote(fields[0]) + "," + EncodeRecord(fields[1..])
  }

  lemma {:induction false} ScanEncoded(fields: seq<string>, done: seq<string>)
    requires |fields| >= 1
    ensures Scan(EncodeRecord(fields), false, [], done) == done + TrimAll(fields)
    decreases |fields|
  {
    var enc := EncodeRecord(fields);
    var f := fields[0];
    if |fields| == 1 {
      assert enc == "\"" + (Escape(f) + "\"" + []);
      assert enc[1..] == Escape(f) + "\"" + [];
      assert Scan(enc, false, [], done) == Scan(enc[1..], true, [], done);
      ScanQuoted(f, [], [], done);
      assert [] + f == f;
      assert TrimAll(fields) == [Trim(f)];
    } else {
      var later := EncodeRecord(fields[1..]);
      var restEnc := "," + later;
      assert enc == "\"" + (Escape(f) + "\"" + restEnc);
      assert enc[1..] == Escape(f) + "\"" + restEnc;
      assert Scan(enc, false, [], done) == Scan(enc[1..], true, [], done);
      ScanQuoted(f, restEnc, [], done);
      assert [] + f == f;
      assert restEnc[1..] == later;
      assert Scan(restEnc, false, f, done) == Scan(later, false, [], done + [Trim(f)]);
      ScanEncoded(fields[1..], done + [Trim(f)]);
      assert TrimAll(fields) == [Trim(f)] + TrimAll(fields[1..]);
    }
  }

  /** Quoting with doubled quotes (section 2 of RFC 4180, rules 6 and 7) is
      undone by the tokenizer, up to the trimming of each field. */
  lemma RecordRoundTrip(fields: seq<string>)
    requires |fields| >= 1
    ensures Fields(EncodeRecord(fields)) == TrimAll(fields)
  {
    ScanEncoded(fields, []);
  }

  /** After an opening quote that is never closed, the rest of the line,
      commas included, belongs to the last field, which is still trimmed. */
  lemma {:induction false} ScanUnterminated(s: string, cur: string, done: seq<string>)
    requires '"' !in s
    ensures Scan("\"" + s, false, cur, done) == done + [Trim(cur + s)]
  {
    assert ("\"" + s)[1..] == s;
    ScanInQuotes(s, cur, done);
  }

  lemma {:induction false} ScanInQuotes(s: string, cur: string, done: seq<string>)
    requires '"' !in s
    ensures Scan(s, true, cur, done) == done + [Trim(cur + s)]
    decreases |s|
  {
    if s != [] {
      assert s[0] in s;
      assert '"' !in s[1..] by { assert forall c :: c in s[1..] ==> c in s; }
      ScanInQuotes(s[1..], cur + [s[0]], done);
      assert cur + [s[0]] + s[1..] == cur + s;
    } else {
      assert cur + s == cur;
    }
  }

  /** A quoted first field keeps its commas and reads each doubled quote as one
      quote; the unquoted cells after it split at every comma. */
  lemma QuotedThenPlain(s: string, t: string)
    requires '"' !in t
    ensures Fields(Quote(s) + "," + t) == [Trim(s)] + TrimAll(Split(t, ','))
  {
    var after := "," + t;
    var line := Quote(s) + "," + t;
    assert line == "\"" + (Escape(s) + "\"" + after);
    assert line[1..] == Escape(s) + "\"" + after;
    assert Fields(line) == Scan(line[1..], true, [], []);
    ScanQuoted(s, after, [], []);
    assert [] + s == s;
    assert after[0] == ',' && after[1..] == t;
    assert [] + [Trim(s)] == [Trim(s)];
    assert Scan(after, false, s, []) == Scan(t, false, [], [Trim(s)]);
    ScanPlain(t, [], [Trim(s)]);
    var pieces := Split(t, ',');
    assert [] + pieces[0] == pieces[0];
    assert pieces == [pieces[0]] + pieces[1..];
    assert PrependFirst([], pieces) == pieces;
  }

  // ---------------------------------------------------------------------------
  // fetchSheet, after the fetch
  // ---------------------------------------------------------------------------

  /** Strips the `\r` of a `\r\n` line break. */
  function DropCR(s: string): string {
    if s != [] && s[|s| - 1] == '\r' then s[..|s| - 1] else s
  }

  /** `text.split(/\r?\n/)`: the pieces between line feeds, each but the last
      without the `\r` of a `\r\n` break. */
  function SplitLines(text: string): (r: seq<string>)
    ensures |r| == |Split(text, '\n')|
    ensures forall i :: 0 <= i < |r| - 1 ==> r[i] == DropCR(Split(text, '\n')[i])
    ensures r[|r| - 1] == Split(text, '\n')[|r| - 1]
    ensures forall i :: 0 <= i < |r| ==> '\n' !in r[i]
  {
    var pieces := Split(text, '\n');
    seq(|pieces|, i requires 0 <= i < |pieces| => if i < |pieces| - 1 then DropCR(pieces[i]) else pieces[i])
  }

  /** A line with something besides whitespace. */
  predicate IsNonBlank(line: string) {
    Trim(line) != []
  }

  /** `.filter(line => line.trim().length > 0)`. */
  function NonBlank(lines: seq<string>): (r: seq<string>)
    ensures forall l :: l in r <==> l in lines && Trim(l) != []
    ensures IsSubsequence(r, lines)
  {
    Filter(lines, IsNonBlank)
  }

  /** One more line at the end is kept exactly when it is not blank, after the
      lines kept before it, so the kept lines keep their order and repeats. */
  lemma NonBlankAppend(lines: seq<string>, line: string)
    ensures NonBlank(lines + [line]) == NonBlank(lines) + (if Trim(line) != [] then [line] else [])
  {
    FilterAppend(lines, line, IsNonBlank);
  }

  /** Without carriage returns the lines are the line-feed pieces, and joining
      them with line feeds gives back the text. */
  lemma SplitLinesWithoutCR(text: string)
    requires '\r' !in text
    ensures SplitLines(text) == Split(text, '\n')
    ensures Join(SplitLines(text), '\n') == text
  {
    var pieces := Split(text, '\n');
    SplitKeepsOut(text, '\n', '\r');
    assert forall i :: 0 <= i < |pieces| ==> DropCR(pieces[i]) == pieces[i];
    JoinSplit(text, '\n');
  }

  /** The tokenized non-blank lines of the fetched text. */
  function TokenizedLines(text: string): (r: seq<seq<string>>)
    ensures |r| == |NonBlank(SplitLines(text))|
  {
    var lines := NonBlank(SplitLines(text));
    seq(|lines|, i requires 0 <= i < |lines| => Fields(lines[i]))
  }

  /** Number of non-empty cells of a line. */
  function NonEmptyCount(cells: seq<string>): nat
    decreases |cells|
  {
    if cells == [] then 0 else (if cells[0] != [] then 1 else 0) + NonEmptyCount(cells[1..])
  }

  /** A line qualifies as the header when more than one of its cells is non-empty. */
  predicate LooksLikeHeader(cells: seq<string>) {
    NonEmptyCount(cells) > 1
  }

  /** Qualifying means two distinct cells are non-empty. */
  lemma {:induction false} LooksLikeHeaderIffTwoCells(cells: seq<string>)
    ensures LooksLikeHeader(cells) <==>
      exists i, j :: 0 <= i < j < |cells| && cells[i] != [] && cells[j] != []
    decreases |cells|
  {
    if cells != [] {
      LooksLikeHeaderIffTwoCells(cells[1..]);
      AtLeastOneIffSome(cells[1..]);
      if exists i, j :: 0 <= i < j < |cells| && cells[i] != [] && cells[j] != [] {
        var i, j :| 0 <= i < j < |cells| && cells[i] != [] && cells[j] != [];
        if i > 0 {
          assert cells[1..][i - 1] != [] && cells[1..][j - 1] != [];
        } else {
          assert cells[1..][j - 1] != [];
        }
      }
      if NonEmptyCount(cells[1..]) > 1 {
        var i, j :| 0 <= i < j < |cells[1..]| && cells[1..][i] != [] && cells[1..][j] != [];
        assert cells[i + 1] != [] && cells[j + 1] != [];
      } else if cells[0] != [] && NonEmptyCount(cells[1..]) == 1 {
        var j :| 0 <= j < |cells[1..]| && cells[1..][j] != [];
        assert cells[j + 1] != [];
      }
    }
  }

  lemma {:induction false} AtLeastOneIffSome(cells: seq<string>)
    ensures NonEmptyCount(cells) >= 1 <==> exists j :: 0 <= j < |cells| && cells[j] != []
    decreases |cells|
  {
    if cells != [] {
      AtLeastOneIffSome(cells[1..]);
      if exists j :: 0 <= j < |cells| && cells[j] != [] {
        var j :| 0 <= j < |cells| && cells[j] != [];
        if j > 0 { assert cells[1..][j - 1] != []; }
      }
      if exists j :: 0 <= j < |cells[1..]| && cells[1..][j] != [] {
        var j :| 0 <= j < |cells[1..]| && cells[1..][j] != [];
        assert cells[j + 1] != [];
      }
    }
  }

  function Min(a: int, b: int): int {
    if a < b then a else b
  }

  /** First qualifying line at index i or later within the first five, else 0. */
  function FirstHeaderFrom(lines: seq<seq<string>>, i: nat): (h: nat)
    ensures h == 0 || (i <= h < Min(|lines|, 5) && LooksLikeHeader(lines[h]))
    ensures forall j :: i <= j < Min(|lines|, 5) && j < h ==> !LooksLikeHeader(lines[j])
    ensures (forall j :: i <= j < Min(|lines|, 5) ==> !LooksLikeHeader(lines[j])) ==> h == 0
    decreases 5 - i
  {
    if i >= Min(|lines|, 5) then 0
    else if LooksLikeHeader(lines[i]) then i
    else FirstHeaderFrom(lines, i + 1)
  }

  /** The header row: the first of the first five lines with more than one
      non-empty cell, or line 0 when none of them has. */
  function HeaderIndex(lines: seq<seq<string>>): (h: nat)
    ensures |lines| > 0 ==> h < |lines|
    ensures (exists i :: 0 <= i < Min(|lines|, 5) && LooksLikeHeader(lines[i])) ==>
      h < Min(|lines|, 5) && LooksLikeHeader(lines[h]) && forall j :: 0 <= j < h ==> !LooksLikeHeader(lines[j])
    ensures (forall i :: 0 <= i < Min(|lines|, 5) ==> !LooksLikeHeader(lines[i])) ==> h == 0
  {
    FirstHeaderFrom(lines, 0)
  }

  /** The header search: a bounded loop that stops at the first qualifying line. */
  method FindHeaderRow(lines: seq<seq<string>>) returns (headerIdx: nat)
    ensures headerIdx == HeaderIndex(lines)
  {
    headerIdx := 0;
    var n := Min(|lines|, 5);
    var i := 0;
    while i < n
      invariant 0 <= i <= n
      invariant forall j :: 0 <= j < i ==> !LooksLikeHeader(lines[j])
    {
      if NonEmptyCount(lines[i]) > 1 {
        headerIdx := i;
        return;
      }
      i := i + 1;
    }
  }

  /** Key of column i: its header, or `Column_<i>` when the header is empty. */
  function ColumnKey(headers: seq<string>, i: nat): (k: string)
    requires i < |headers|
    ensures k != []
  {
    if headers[i] != [] then headers[i] else "Column_" + NatToString(i)
  }

  /** The returned headers: every blank name replaced by its column key. */
  function ColumnKeys(headers: seq<string>): (r: seq<string>)
    ensures |r| == |headers|
    ensures forall i :: 0 <= i < |r| ==> r[i] == ColumnKey(headers, i) && r[i] != []
  {
    seq(|headers|, i requires 0 <= i < |headers| => ColumnKey(headers, i))
  }

  /** `line[index] || ''`. */
  function Cell(line: seq<string>, i: nat): string {
    if i < |line| then line[i] else []
  }

  /** The record after the first n columns have been written into it. */
  function RecordUpTo(headers: seq<string>, line: seq<string>, n: nat): map<string, string>
    requires n <= |headers|
  {
    if n == 0 then map[] else RecordUpTo(headers, line, n - 1)[ColumnKey(headers, n - 1) := Cell(line, n - 1)]
  }

  /** The record of one data line: each column's cell under the column's key. */
  function Record(headers: seq<string>, line: seq<string>): map<string, string> {
    RecordUpTo(headers, line, |headers|)
  }

  /** Column i is the last one carrying its key (a later duplicate overwrites it). */
  predicate LastWithKey(headers: seq<string>, i: nat)
    requires i < |headers|
  {
    forall j :: i < j < |headers| ==> ColumnKey(headers, j) != ColumnKey(headers, i)
  }

  lemma {:induction false} RecordUpToKeys(headers: seq<string>, line: seq<string>, n: nat)
    requires n <= |headers|
    ensures RecordUpTo(headers, line, n).Keys == set i | 0 <= i < n :: ColumnKey(headers, i)
    decreases n
  {
    if n > 0 {
      RecordUpToKeys(headers, line, n - 1);
      var before := set i | 0 <= i < n - 1 :: ColumnKey(headers, i);
      assert (set i | 0 <= i < n :: ColumnKey(headers, i)) == before + {ColumnKey(headers, n - 1)};
    }
  }

  lemma {:induction false} RecordUpToValue(headers: seq<string>, line: seq<string>, n: nat, i: nat)
    requires i < n <= |headers|
    requires forall j :: i < j < n ==> ColumnKey(headers, j) != ColumnKey(headers, i)
    ensures ColumnKey(headers, i) in RecordUpTo(headers, line, n)
    ensures RecordUpTo(headers, line, n)[ColumnKey(headers, i)] == Cell(line, i)
    decreases n
  {
    if i < n - 1 {
      RecordUpToValue(headers, line, n - 1, i);
      assert ColumnKey(headers, n - 1) != ColumnKey(headers, i);
    }
  }

  /** Every record has exactly the returned headers as keys, and each column
      that is the last with its key holds the cell at the same position, or ''
      if the line is shorter; extra cells are dropped. */
  lemma RecordShape(headers: seq<string>, line: seq<string>)
    ensures Record(headers, line).Keys == set k | k in ColumnKeys(headers)
    ensures forall i :: 0 <= i < |headers| && LastWithKey(headers, i) ==>
      Record(headers, line)[ColumnKey(headers, i)] == Cell(line, i)
  {
    RecordUpToKeys(headers, line, |headers|);
    forall i | 0 <= i < |headers| && LastWithKey(headers, i)
      ensures Record(headers, line)[ColumnKey(headers, i)] == Cell(line, i)
    {
      RecordUpToValue(headers, line, |headers|, i);
    }
    var keys := ColumnKeys(headers);
    forall k | k in keys
      ensures k in Record(headers, line).Keys
    {
      var i :| 0 <= i < |keys| && keys[i] == k;
      assert ColumnKey(headers, i) == k;
    }
  }

  /** Filling one record column by column, as `headers.forEach` does. */
  method BuildRow(headers: seq<string>, line: seq<string>) returns (row: map<string, string>)
    ensures row == Record(headers, line)
  {
    row := map[];
    var index := 0;
    while index < |headers|
      invariant 0 <= index <= |headers|
      invariant row == RecordUpTo(headers, line, index)
    {
      var key := if headers[index] != [] then headers[index] else "Column_" + NatToString(index);
      row := row[key := if index < |line| then line[index] else ""];
      index := index + 1;
    }
  }

  /** The table of a non-empty tokenized sheet. */
  function TableOf(lines: seq<seq<string>>): (t: SheetData)
    requires |lines| > 0
  {
    var h := HeaderIndex(lines);
    var data := lines[h + 1..];
    SheetData(ColumnKeys(lines[h]),
              seq(|data|, k requires 0 <= k < |data| => Record(lines[h], data[k])))
  }

  /** The data rows are exactly the lines after the header, and every row
      record is keyed by exactly the returned headers, none of them blank. */
  lemma TableShape(lines: seq<seq<string>>)
    requires |lines| > 0
    ensures var t := TableOf(lines);
      && |t.rows| == |lines| - HeaderIndex(lines) - 1
      && (forall h :: h in t.headers ==> h != [])
      && (forall k :: 0 <= k < |t.rows| ==> t.rows[k].Keys == set h | h in t.headers)
      && t.headers == ColumnKeys(lines[HeaderIndex(lines)])
      && forall k :: 0 <= k < |t.rows| ==>
           t.rows[k] == Record(lines[HeaderIndex(lines)], lines[HeaderIndex(lines) + 1 + k])
  {
    var t := TableOf(lines);
    var h := HeaderIndex(lines);
    forall k | 0 <= k < |t.rows|
      ensures t.rows[k].Keys == set x | x in t.headers
    {
      RecordShape(lines[h], lines[h + 1 + k]);
    }
  }

  const InvalidUrlMessage := "Invalid Spreadsheet URL."
  const AccessMessage := "Failed to access sheet. Ensure it's public."
  const EmptyMessage := "Sheet is empty."

  /** What fetching the export URL gave: a body, a non-success status, or a
      rejected request with its message. */
  datatype FetchOutcome = Body(text: string) | NotOk | NetworkError(message: string)

  /** The table of the fetched text, or the empty-sheet error. */
  function SheetFromText(text: string): (r: Result<SheetData, string>)
    ensures r.Err? <==> NonBlank(SplitLines(text)) == []
    ensures r.Err? ==> r.error == EmptyMessage
    ensures r.Ok? ==> r.value == TableOf(TokenizedLines(text))
  {
    var lines := TokenizedLines(text);
    if |lines| == 0 then Err(EmptyMessage) else Ok(TableOf(lines))
  }

  /** `fetchSheet`: the errors in the order the source raises them, then the table. */
  function LoadSheet(sheetUrl: string, parsed: Option<UrlParts>, fetched: FetchOutcome): (r: Result<SheetData, string>)
    ensures r == Err(InvalidUrlMessage) <== !HasIdSegment(sheetUrl)
    ensures HasIdSegment(sheetUrl) && fetched.NotOk? ==> r == Err(AccessMessage)
    ensures HasIdSegment(sheetUrl) && fetched.NetworkError? ==> r == Err(fetched.message)
    ensures HasIdSegment(sheetUrl) && fetched.Body? ==> r == SheetFromText(fetched.text)
  {
    if GetCsvUrl(sheetUrl, parsed).None? then Err(InvalidUrlMessage)
    else
      match fetched
      case NotOk => Err(AccessMessage)
      case NetworkError(m) => Err(m)
      case Body(text) => SheetFromText(text)
  }

  /** `.map(line => this.parseCsvLine(line))`. */
  method TokenizeAll(kept: seq<string>) returns (allLines: seq<seq<string>>)
    ensures |allLines| == |kept|
    ensures forall j :: 0 <= j < |kept| ==> allLines[j] == Fields(kept[j])
  {
    allLines := [];
    var i := 0;
    while i < |kept|
      invariant 0 <= i <= |kept|
      invariant |allLines| == i
      invariant forall j :: 0 <= j < i ==> allLines[j] == Fields(kept[j])
    {
      var cells := ParseCsvLine(kept[i]);
      allLines := allLines + [cells];
      i := i + 1;
    }
  }

  /** `dataRows.map(line => { ... })`. */
  method BuildRows(headers: seq<string>, dataRows: seq<seq<string>>) returns (rows: seq<map<string, string>>)
    ensures |rows| == |dataRows|
    ensures forall j :: 0 <= j < |dataRows| ==> rows[j] == Record(headers, dataRows[j])
  {
    rows := [];
    var k := 0;
    while k < |dataRows|
      invariant 0 <= k <= |dataRows|
      invariant |rows| == k
      invariant forall j :: 0 <= j < k ==> rows[j] == Record(headers, dataRows[j])
    {
      var row := BuildRow(headers, dataRows[k]);
      rows := rows + [row];
      k := k + 1;
    }
  }

  /** `fetchSheet` as the source runs it: tokenize each line, search for the
      header, then build the records one by one. */
  method FetchSheet(sheetUrl: string, parsed: Option<UrlParts>, fetched: FetchOutcome)
    returns (r: Result<SheetData, string>)
    ensures r == LoadSheet(sheetUrl, parsed, fetched)
  {
    var csvUrl := GetCsvUrl(sheetUrl, parsed);
    if csvUrl.None? {
      return Err(InvalidUrlMessage);
    }
    if fetched.NotOk? {
      return Err(AccessMessage);
    }
    if fetched.NetworkError? {
      return Err(fetched.message);
    }
    var text := fetched.text;
    var allLines := TokenizeAll(NonBlank(SplitLines(text)));
    assert allLines == TokenizedLines(text);
    if |allLines| == 0 {
      return Err(EmptyMessage);
    }
    var headerIdx := FindHeaderRow(allLines);
    var headers := allLines[headerIdx];
    var rows := BuildRows(headers, allLines[headerIdx + 1..]);
    r := Ok(SheetData(ColumnKeys(headers), rows));
    assert r.value == TableOf(allLines);
  }
}
