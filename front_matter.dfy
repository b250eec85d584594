/** The post page's front-matter parser (`parseFrontMatter` in js/post-loader.js) and the
    title and meta line `renderPost` derives from the parsed metadata.

    The parser strips one byte-order mark, then matches the content against
    `/^---\r?\n([\s\S]*?)\r?\n---\r?\n([\s\S]*)$/`. Here that pattern is written out as a search
    for the opening delimiter and for the FIRST closing delimiter after it (the lazy `*?`), and it
    is proved equal to the declarative reading "content = opener + header + closer + body with the
    shortest header". Header lines become `key: value` entries; a later key overwrites an earlier
    one; values lose one pair of matching quotes; a bracketed `tags` value becomes a list. */
module FrontMatter {
  import opened Collections
  import opened Strings

  /** A metadata value: a string, or the array a bracketed `tags` value parses to. */
  datatype Value = Text(text: string) | List(items: seq<string>)

  /** What `parseFrontMatter` returns: `{ metadata, body }`. */
  datatype Parsed = Parsed(metadata: map<string, Value>, body: string)

  /** `JSON.parse` applied to a bracketed `tags` value: the array of strings it denotes, or
      `None` when it throws. */
  type JsonParser = string -> Option<seq<string>>

  /** The UTF-8 byte-order mark as a character, U+FEFF. */
  const Bom: char := '\U{FEFF}'

  /** Removes one leading byte-order mark. */
  function StripBom(content: string): string {
    if |content| > 0 && content[0] == Bom then content[1..] else content
  }

  // ----- The delimiter pattern -----

  /** The delimiters the pattern accepts around the header. */
  predicate IsOpener(o: string) {
    o == "---\n" || o == "---\r\n"
  }

  predicate IsCloser(c: string) {
    c == "\n---\n" || c == "\n---\r\n" || c == "\r\n---\n" || c == "\r\n---\r\n"
  }

  /** Declarative reading of the pattern without laziness: `s` is an opener, the header, a
      closer, and the body. */
  ghost predicate Delimited(s: string, header: string, body: string) {
    exists o, c :: IsOpener(o) && IsCloser(c) && s == o + header + c + body
  }

  /** Length of the `\r?\n` starting at `p`, or 0 when there is none there. */
  function LineBreakAt(s: string, p: nat): (n: nat)
    ensures n == 0 || n == 1 || n == 2
    ensures n > 0 ==> p + n <= |s|
  {
    if p + 1 <= |s| && s[p] == '\n' then 1
    else if p + 2 <= |s| && s[p] == '\r' && s[p + 1] == '\n' then 2
    else 0
  }

  /** Three dashes start at `p`. */
  predicate DashesAt(s: string, p: nat) {
    p + 3 <= |s| && s[p] == '-' && s[p + 1] == '-' && s[p + 2] == '-'
  }

  /** Length of the `---\r?\n` that starts `s`, or 0 when `s` does not start with one. */
  function OpenerLen(s: string): (n: nat)
    ensures n <= |s|
  {
    if DashesAt(s, 0) && LineBreakAt(s, 3) > 0 then 3 + LineBreakAt(s, 3) else 0
  }

  /** Length of the `\r?\n---\r?\n` starting at `p`, or 0 when there is none there. */
  function CloserLen(s: string, p: nat): (n: nat)
    ensures n > 0 ==> p + n <= |s|
  {
    var a := LineBreakAt(s, p);
    if a > 0 && DashesAt(s, p + a) && LineBreakAt(s, p + a + 3) > 0
    then a + 3 + LineBreakAt(s, p + a + 3)
    else 0
  }

  /** The lazy `[\s\S]*?`: the first position at or after `p` where a closing delimiter starts. */
  function FindCloser(s: string, p: nat): (r: Option<nat>)
    requires p <= |s|
    ensures r.Some? ==> p <= r.value <= |s| && CloserLen(s, r.value) > 0
    ensures forall q :: p <= q <= |s| && (r.None? || q < r.value) ==> CloserLen(s, q) == 0
    decreases |s| - p
  {
    if CloserLen(s, p) > 0 then Some(p)
    else if p == |s| then None
    else FindCloser(s, p + 1)
  }

  /** `content.match(...)`: the header (`match[1]`) and the body (`match[2]`), or `None`. */
  function SplitFrontMatter(s: string): Option<(string, string)> {
    var o := OpenerLen(s);
    if o == 0 then None
    else match FindCloser(s, o)
      case None => None
      case Some(p) => Some((s[o..p], s[p + CloserLen(s, p)..]))
  }

  /** Any split of `s` into opener, header, closer and body has its delimiters where the
      search looks for them: the opener's length `n`, the header from `n`, the closer's length
      `m` after it, and the body after the closer. */
  lemma DelimitersFound(s: string, h: string, b: string) returns (n: nat, m: nat)
    requires Delimited(s, h, b)
    ensures n == OpenerLen(s) > 0 && m == CloserLen(s, n + |h|) > 0
    ensures n + |h| + m <= |s| && s[n..n + |h|] == h && s[n + |h| + m..] == b
  {
    var o, c := SplitSlices(s, h, b);
    OpenerAt(s, o);
    CloserAt(s, |o| + |h|, c);
    n, m := |o|, |c|;
  }

  /** The four pieces of an allowed split, as slices of `s`. */
  lemma SplitSlices(s: string, h: string, b: string) returns (o: string, c: string)
    requires Delimited(s, h, b)
    ensures IsOpener(o) && IsCloser(c) && |o| + |h| + |c| <= |s|
    ensures s[..|o|] == o && s[|o|..|o| + |h|] == h
    ensures s[|o| + |h|..|o| + |h| + |c|] == c && s[|o| + |h| + |c|..] == b
  {
    o, c :| IsOpener(o) && IsCloser(c) && s == o + h + c + b;
    Pieces(s, o, h, c, b);
    assert s[..|o|] == o;
    assert s[|o| + |h|..|o| + |h| + |c|] == c;
  }

  /** An opener at the start of `s` is what `OpenerLen` measures. */
  lemma OpenerAt(s: string, o: string)
    requires IsOpener(o) && |o| <= |s| && s[..|o|] == o
    ensures OpenerLen(s) == |o|
  {
    forall i | 0 <= i < |o|
      ensures s[i] == o[i]
    {
      assert s[..|o|][i] == s[i];
    }
    assert DashesAt(s, 0);
    assert LineBreakAt(s, 3) == |o| - 3;
  }

  /** A closer at position `p` of `s` is what `CloserLen` measures there. */
  lemma CloserAt(s: string, p: nat, c: string)
    requires IsCloser(c) && p + |c| <= |s| && s[p..p + |c|] == c
    ensures CloserLen(s, p) == |c|
  {
    var k := |c| - 1;
    assert s[p + k] == c[k] == '\n' by { SliceChar(s, p, c, k); }
    if c == "\n---\n" || c == "\n---\r\n" {
      assert s[p] == '\n' by { SliceChar(s, p, c, 0); }
      assert DashesAt(s, p + 1) by {
        SliceChar(s, p, c, 1); SliceChar(s, p, c, 2); SliceChar(s, p, c, 3);
      }
      if c == "\n---\r\n" {
        assert s[p + 4] == '\r' by { SliceChar(s, p, c, 4); }
      }
    } else {
      assert s[p] == '\r' && s[p + 1] == '\n' by { SliceChar(s, p, c, 0); SliceChar(s, p, c, 1); }
      assert DashesAt(s, p + 2) by {
        SliceChar(s, p, c, 2); SliceChar(s, p, c, 3); SliceChar(s, p, c, 4);
      }
      if c == "\r\n---\r\n" {
        assert s[p + 5] == '\r' by { SliceChar(s, p, c, 5); }
      }
    }
  }

  /** The characters of a slice are those of the sequence it is cut from. */
  lemma SliceChar(s: string, p: nat, c: string, k: nat)
    requires p + |c| <= |s| && s[p..p + |c|] == c && k < |c|
    ensures s[p + k] == c[k]
  {
    assert s[p..p + |c|][k] == s[p + k];
  }

  /** The hand-written search agrees with the pattern: it finds a split exactly when one
      exists, its header is the shortest possible (the lazy match), and its body is the whole
      remainder after the closing delimiter. */
  lemma SplitFrontMatterIsLazyMatch(s: string)
    ensures SplitFrontMatter(s).None? <==> forall h, b :: !Delimited(s, h, b)
    ensures SplitFrontMatter(s).Some? ==>
      var (h, b) := SplitFrontMatter(s).value;
      Delimited(s, h, b) &&
      (forall h', b' :: Delimited(s, h', b') ==> |h| <= |h'|) &&
      (forall b' :: Delimited(s, h, b') ==> b' == b)
  {
    forall h, b | Delimited(s, h, b)
      ensures SplitFrontMatter(s).Some? && |SplitFrontMatter(s).value.0| <= |h|
      ensures h == SplitFrontMatter(s).value.0 ==> b == SplitFrontMatter(s).value.1
    {
      SplitComplete(s, h, b);
    }
    if SplitFrontMatter(s).Some? {
      SplitSound(s);
    }
  }

  /** Every split the pattern allows is found, with a header no longer than its own; the
      body after a given header is determined. */
  lemma SplitComplete(s: string, h: string, b: string)
    requires Delimited(s, h, b)
    ensures SplitFrontMatter(s).Some? && |SplitFrontMatter(s).value.0| <= |h|
    ensures h == SplitFrontMatter(s).value.0 ==> b == SplitFrontMatter(s).value.1
  {
    var n, m := DelimitersFound(s, h, b);
    FoundAt(s, n, m, h, b);
  }

  /** With an opener of length `n`, the header `h` and a closer of length `m` at their places,
      the search finds a header no longer than `h`, and one as long is `h` with the body `b`. */
  lemma FoundAt(s: string, n: nat, m: nat, h: string, b: string)
    requires n == OpenerLen(s) > 0 && m == CloserLen(s, n + |h|) > 0
    requires n + |h| + m <= |s| && s[n..n + |h|] == h && s[n + |h| + m..] == b
    ensures SplitFrontMatter(s).Some? && |SplitFrontMatter(s).value.0| <= |h|
    ensures |SplitFrontMatter(s).value.0| == |h| ==> SplitFrontMatter(s).value == (h, b)
  {
    SearchFinds(s, n + |h|);
  }

  /** With an opener at the start and a closer at `p`, the search finds a header no longer than
      the one ending at `p`, and when it is as long, it is that header with the rest as body. */
  lemma SearchFinds(s: string, p: nat)
    requires 0 < OpenerLen(s) <= p && CloserLen(s, p) > 0
    ensures SplitFrontMatter(s).Some?
    ensures |SplitFrontMatter(s).value.0| <= p - OpenerLen(s)
    ensures |SplitFrontMatter(s).value.0| == p - OpenerLen(s) ==>
      SplitFrontMatter(s).value == (s[OpenerLen(s)..p], s[p + CloserLen(s, p)..])
  {
    var n := OpenerLen(s);
    FoundBefore(s, n, p);
    var q := FindCloser(s, n).value;
    assert SplitFrontMatter(s) == Some((s[n..q], s[q + CloserLen(s, q)..]));
  }

  /** The search from `start` stops at or before a position where a closer starts. */
  lemma FoundBefore(s: string, start: nat, p: nat)
    requires start <= p <= |s| && CloserLen(s, p) > 0
    ensures FindCloser(s, start).Some? && FindCloser(s, start).value <= p
  {
  }

  /** What the search finds is a split the pattern allows. */
  lemma SplitSound(s: string)
    requires SplitFrontMatter(s).Some?
    ensures Delimited(s, SplitFrontMatter(s).value.0, SplitFrontMatter(s).value.1)
  {
    var o := OpenerLen(s);
    var p := FindCloser(s, o).value;
    var n := CloserLen(s, p);
    var h, b := s[o..p], s[p + n..];
    assert (h, b) == SplitFrontMatter(s).value;
    var open, close := s[..o], s[p..p + n];
    OpenerShape(s);
    CloserShape(s, p);
    Reassemble(s, o, p, p + n);
    assert IsOpener(open) && IsCloser(close) && s == open + h + close + b;
  }

  /** Four consecutive slices make up the whole sequence. */
  lemma Reassemble(s: string, i: nat, j: nat, k: nat)
    requires i <= j <= k <= |s|
    ensures s == s[..i] + s[i..j] + s[j..k] + s[k..]
  {
  }

  /** What `OpenerLen` measures is an opener. */
  lemma OpenerShape(s: string)
    requires OpenerLen(s) > 0
    ensures IsOpener(s[..OpenerLen(s)])
  {
    var open := s[..OpenerLen(s)];
    if LineBreakAt(s, 3) == 1 {
      assert open == "---\n";
    } else {
      assert open == "---\r\n";
    }
  }

  /** What `CloserLen` measures is a closer. */
  lemma CloserShape(s: string, p: nat)
    requires CloserLen(s, p) > 0
    ensures IsCloser(s[p..p + CloserLen(s, p)])
  {
    var a := LineBreakAt(s, p);
    var d := LineBreakAt(s, p + a + 3);
    var close := s[p..p + CloserLen(s, p)];
    if a == 1 && d == 1 {
      assert close == "\n---\n";
    } else if a == 1 {
      assert close == "\n---\r\n";
    } else if d == 1 {
      assert close == "\r\n---\n";
    } else {
      assert close == "\r\n---\r\n";
    }
  }

  // ----- Header lines -----

  predicate IsQuote(c: char) {
    c == '"' || c == '\''
  }

  /** The key a header line defines: the text before its first colon, trimmed. A line without
      a colon, or whose first colon is its first character, defines none. */
  function LineKey(line: string): (r: Option<string>)
    ensures r.None? <==> ':' !in line || line[0] == ':'
  {
    var colon := IndexOf(line, ':');
    if colon > 0 then Some(Trim(line[..colon])) else None
  }

  /** The text after the first colon, trimmed; it may hold further colons. */
  function RawValue(line: string): string
    requires LineKey(line).Some?
  {
    var colon := IndexOf(line, ':');
    Trim(line[colon + 1..])
  }

  /** A line splits at its first colon into key and value. */
  lemma LineParts(before: string, after: string)
    requires |before| > 0 && ':' !in before
    ensures LineKey(before + ":" + after) == Some(Trim(before))
    ensures RawValue(before + ":" + after) == Trim(after)
  {
    var line := before + ":" + after;
    IndexOfFirst(before, ':', after);
    assert line[..|before|] == before;
    assert line[|before| + 1..] == after;
  }

  /** `value.slice(1, -1)` when the value starts and ends with the same kind of quote. */
  function Unquote(v: string): string {
    if |v| > 0 && ((v[0] == '"' && v[|v| - 1] == '"') || (v[0] == '\'' && v[|v| - 1] == '\'')) then
      (if |v| >= 2 then v[1..|v| - 1] else "")
    else v
  }

  /** A value wrapped in two equal quotes loses exactly those two characters; a lone quote
      becomes empty; any other value is unchanged. */
  lemma UnquoteSpec(v: string)
    ensures |v| >= 2 && IsQuote(v[0]) && v[|v| - 1] == v[0] ==> [v[0]] + Unquote(v) + [v[0]] == v
    ensures |v| == 1 && IsQuote(v[0]) ==> Unquote(v) == ""
    ensures !(|v| > 0 && IsQuote(v[0]) && v[|v| - 1] == v[0]) ==> Unquote(v) == v
  {
    if |v| >= 2 && IsQuote(v[0]) && v[|v| - 1] == v[0] {
      assert v == [v[0]] + v[1..|v| - 1] + [v[|v| - 1]];
    }
  }

  /** Quoting then unquoting gives the text back. */
  lemma UnquoteQuoted(q: char, x: string)
    requires IsQuote(q)
    ensures Unquote([q] + x + [q]) == x
  {
    assert ([q] + x + [q])[1..|x| + 1] == x;
  }

  /** `tag.replace(/^['"]|['"]$/g, "")`: one leading and one trailing quote of either kind. */
  function StripEdgeQuotes(t: string): string {
    var a := if |t| > 0 && IsQuote(t[0]) then t[1..] else t;
    if |a| > 0 && IsQuote(a[|a| - 1]) then a[..|a| - 1] else a
  }

  /** The items of the comma-split fallback: `inner.split(",")`, each trimmed and stripped of
      edge quotes. */
  function TagItems(inner: string): seq<string> {
    var pieces := SplitOn(inner, ',');
    seq(|pieces|, i requires 0 <= i < |pieces| => StripEdgeQuotes(Trim(pieces[i])))
  }

  /** One item per comma-separated piece, and no item holds a comma. */
  lemma TagItemsShape(inner: string)
    ensures |TagItems(inner)| == |SplitOn(inner, ',')|
    ensures forall i :: 0 <= i < |TagItems(inner)| ==> ',' !in TagItems(inner)[i]
  {
    var pieces := SplitOn(inner, ',');
    SplitOnPieces(inner, ',');
    forall i | 0 <= i < |pieces|
      ensures ',' !in TagItems(inner)[i]
    {
      TrimKeepsOut(pieces[i], ',');
      StripEdgeQuotesKeepsOut(Trim(pieces[i]), ',');
    }
  }

  lemma StripEdgeQuotesKeepsOut(t: string, c: char)
    requires c !in t
    ensures c !in StripEdgeQuotes(t)
  {
    var a := if |t| > 0 && IsQuote(t[0]) then t[1..] else t;
    assert forall x :: x in a ==> x in t;
  }

  /** The value stored for `key` once its raw value has been unquoted to `v`: for the key
      `tags`, a bracketed value becomes a list, through `JSON.parse` or, when that throws, the
      comma split; anything else is kept as text. */
  function StoredValue(key: string, v: string, json: JsonParser): Value {
    if key == "tags" && |v| > 0 && v[0] == '[' && v[|v| - 1] == ']' then
      match json(v)
      case Some(items) => List(items)
      case None => List(TagItems(v[1..|v| - 1]))
    else Text(v)
  }

  /** The value a header line stores. */
  function LineValue(line: string, json: JsonParser): Value
    requires LineKey(line).Some?
  {
    StoredValue(LineKey(line).value, Unquote(RawValue(line)), json)
  }

  /** One step of the `forEach` over the header lines: `metadata[key] = value`. */
  function AddLine(metadata: map<string, Value>, line: string, json: JsonParser): map<string, Value> {
    match LineKey(line)
    case None => metadata
    case Some(key) => metadata[key := LineValue(line, json)]
  }

  /** The metadata after the `forEach` has visited `lines` in order. */
  function MetadataOf(lines: seq<string>, json: JsonParser): map<string, Value>
    decreases |lines|
  {
    if lines == [] then map[]
    else AddLine(MetadataOf(lines[..|lines| - 1], json), lines[|lines| - 1], json)
  }

  /** `parseFrontMatter(content)`, as a function. */
  function Parse(content: string, json: JsonParser): Parsed {
    var text := StripBom(content);
    match SplitFrontMatter(text)
    case None => Parsed(map[], text)
    case Some((header, body)) => Parsed(MetadataOf(SplitLines(header), json), body)
  }

  /** The body of the `forEach` callback for one header line: the key it defines, if any,
      and the value it stores under that key. */
  method ReadLine(line: string, json: JsonParser) returns (key: Option<string>, stored: Value)
    ensures key == LineKey(line)
    ensures key.Some? ==> stored == LineValue(line, json)
  {
    var colonIndex := IndexOf(line, ':');
    if colonIndex <= 0 {
      return None, Text("");
    }
    var k := Trim(line[..colonIndex]);
    var value := Trim(line[colonIndex + 1..]);
    assert LineKey(line) == Some(k) && RawValue(line) == value;
    stored := ReadValue(k, value, json);
    key := Some(k);
  }

  /** The second half of the callback: unquote the trimmed value and, for `tags`, turn a
      bracketed value into a list. */
  method ReadValue(key: string, raw: string, json: JsonParser) returns (stored: Value)
    ensures stored == StoredValue(key, Unquote(raw), json)
  {
    var value := raw;
    if (|value| > 0 && value[0] == '"' && value[|value| - 1] == '"') ||
       (|value| > 0 && value[0] == '\'' && value[|value| - 1] == '\'') {
      value := if |value| >= 2 then value[1..|value| - 1] else "";
    }
    assert value == Unquote(raw);
    stored := Text(value);
    if key == "tags" && |value| > 0 && value[0] == '[' && value[|value| - 1] == ']' {
      var parsed := json(value);
      if parsed.Some? {
        stored := List(parsed.value);
      } else {
        stored := List(TagItems(value[1..|value| - 1]));
      }
    }
  }

  /** `parseFrontMatter(content)`: removes the byte-order mark by reassigning `content`,
      matches the delimiters, and reads the header. */
  method ParseFrontMatter(content: string, json: JsonParser) returns (r: Parsed)
    ensures r == Parse(content, json)
  {
    var text := content;
    if |text| > 0 && text[0] == Bom {
      text := text[1..];
    }
    assert text == StripBom(content);
    var split := SplitFrontMatter(text);
    if split.None? {
      return Parsed(map[], text);
    }
    var metadata := ReadHeader(split.value.0, json);
    return Parsed(metadata, split.value.1);
  }

  /** The `forEach` over the header's lines, filling `metadata` one line at a time. */
  method ReadHeader(header: string, json: JsonParser) returns (metadata: map<string, Value>)
    ensures metadata == MetadataOf(SplitLines(header), json)
  {
    metadata := map[];
    var lines := SplitLines(header);
    var i := 0;
    while i < |lines|
      invariant 0 <= i <= |lines|
      invariant metadata == MetadataOf(lines[..i], json)
    {
      MetadataStep(lines, i, json);
      var key, stored := ReadLine(lines[i], json);
      if key.Some? {
        metadata := metadata[key.value := stored];
      }
      i := i + 1;
    }
    assert lines[..i] == lines;
  }

  /** One more line read is one more `AddLine`. */
  lemma MetadataStep(lines: seq<string>, i: nat, json: JsonParser)
    requires i < |lines|
    ensures MetadataOf(lines[..i + 1], json) == AddLine(MetadataOf(lines[..i], json), lines[i], json)
  {
    assert lines[..i + 1][..i] == lines[..i];
  }

  // ----- Properties of the metadata -----

  /** A key is present exactly when some header line defines it. */
  lemma {:induction false} MetadataKeys(lines: seq<string>, json: JsonParser, key: string)
    ensures key in MetadataOf(lines, json) <==> exists j :: 0 <= j < |lines| && LineKey(lines[j]) == Some(key)
    decreases |lines|
  {
    if lines != [] {
      var init, last := lines[..|lines| - 1], lines[|lines| - 1];
      MetadataKeys(init, json, key);
      AddLineKeys(MetadataOf(init, json), last, json, key);
      assert lines == init + [last];
      assert MetadataOf(lines, json) == AddLine(MetadataOf(init, json), last, json);
      if exists j :: 0 <= j < |init| && LineKey(init[j]) == Some(key) {
        var j :| 0 <= j < |init| && LineKey(init[j]) == Some(key);
        assert lines[j] == init[j];
      }
      if exists j :: 0 <= j < |lines| && LineKey(lines[j]) == Some(key) {
        var j :| 0 <= j < |lines| && LineKey(lines[j]) == Some(key);
        if j < |init| {
          assert init[j] == lines[j];
        }
      }
    }
  }

  /** A line adds its own key, if any, and keeps the others. */
  lemma AddLineKeys(metadata: map<string, Value>, line: string, json: JsonParser, key: string)
    ensures key in AddLine(metadata, line, json) <==> key in metadata || LineKey(line) == Some(key)
  {
  }

  /** A later line defining the same key overwrites an earlier one: the value stored for a
      key is the one from the last line defining it. */
  lemma {:induction false} MetadataLastWins(lines: seq<string>, json: JsonParser, j: nat)
    requires j < |lines| && LineKey(lines[j]).Some?
    requires forall k :: j < k < |lines| ==> LineKey(lines[k]) != LineKey(lines[j])
    ensures LineKey(lines[j]).value in MetadataOf(lines, json)
    ensures MetadataOf(lines, json)[LineKey(lines[j]).value] == LineValue(lines[j], json)
    decreases |lines|
  {
    var init := lines[..|lines| - 1];
    if j < |lines| - 1 {
      assert init[j] == lines[j];
      MetadataLastWins(init, json, j);
    }
  }

  /** Only the key `tags` can hold a list. */
  lemma {:induction false} OnlyTagsIsList(lines: seq<string>, json: JsonParser, key: string)
    requires key in MetadataOf(lines, json) && MetadataOf(lines, json)[key].List?
    ensures key == "tags"
    decreases |lines|
  {
    var init := lines[..|lines| - 1];
    var last := lines[|lines| - 1];
    if LineKey(last) != Some(key) {
      OnlyTagsIsList(init, json, key);
    }
  }

  // ----- Properties of the whole parse -----

  /** Parsing never fails, and the body is always a suffix of the content. */
  lemma BodyIsSuffix(content: string, json: JsonParser)
    ensures var body := Parse(content, json).body;
      |body| <= |content| && body == content[|content| - |body|..]
  {
    var text := StripBom(content);
    assert text == content[|content| - |text|..];
    var split := SplitFrontMatter(text);
    if split.Some? {
      SplitBodyIsSuffix(text);
      assert Parse(content, json).body == split.value.1;
      SuffixOfSuffix(content, text, split.value.1);
    } else {
      assert Parse(content, json).body == text;
    }
  }

  /** The body the search finds is a suffix of the searched text. */
  lemma SplitBodyIsSuffix(s: string)
    requires SplitFrontMatter(s).Some?
    ensures var b := SplitFrontMatter(s).value.1; |b| <= |s| && b == s[|s| - |b|..]
  {
    var p := FindCloser(s, OpenerLen(s)).value;
    assert SplitFrontMatter(s).value.1 == s[p + CloserLen(s, p)..];
  }

  lemma SuffixOfSuffix(a: string, b: string, c: string)
    requires |b| <= |a| && b == a[|a| - |b|..]
    requires |c| <= |b| && c == b[|b| - |c|..]
    ensures c == a[|a| - |c|..]
  {
  }

  /** Without a delimited header, the metadata is empty and the body is the content after the
      byte-order mark is removed. */
  lemma NoHeaderKeepsContent(content: string, json: JsonParser)
    requires forall h, b :: !Delimited(StripBom(content), h, b)
    ensures Parse(content, json) == Parsed(map[], StripBom(content))
  {
    SplitFrontMatterIsLazyMatch(StripBom(content));
  }

  /** With a delimited header, the header ends at the first closing `---` line and the body is
      everything after that line. */
  lemma HeaderEndsAtFirstCloser(content: string, json: JsonParser, h: string, b: string)
    requires Delimited(StripBom(content), h, b)
    requires forall h', b' :: Delimited(StripBom(content), h', b') ==> |h| <= |h'|
    ensures Parse(content, json) == Parsed(MetadataOf(SplitLines(h), json), b)
  {
    var text := StripBom(content);
    SplitComplete(text, h, b);
    SplitSound(text);
    SameLengthSameSplit(text, h, b);
  }

  /** A split the pattern allows whose header is as long as the one found is the one found. */
  lemma SameLengthSameSplit(s: string, h: string, b: string)
    requires Delimited(s, h, b)
    requires SplitFrontMatter(s).Some? && |SplitFrontMatter(s).value.0| == |h|
    ensures SplitFrontMatter(s) == Some((h, b))
  {
    var n, m := DelimitersFound(s, h, b);
    FoundAt(s, n, m, h, b);
  }

  /** The header and the body sit where the lengths of the pieces say. */
  lemma Pieces(s: string, o: string, h: string, c: string, b: string)
    requires s == o + h + c + b
    ensures s[|o|..|o| + |h|] == h
    ensures s[|o| + |h| + |c|..] == b
  {
    assert s == (o + h) + (c + b);
    assert s == (o + h + c) + b;
  }

  /** Exactly one byte-order mark is removed: a second one stays in the content, and since the
      content then does not start with `---`, it is all body. */
  lemma OnlyOneBomRemoved(rest: string, json: JsonParser)
    ensures Parse([Bom, Bom] + rest, json) == Parsed(map[], [Bom] + rest)
  {
    var text := [Bom] + rest;
    assert StripBom([Bom, Bom] + rest) == text;
    if |text| >= 3 {
      assert text[..3][0] == Bom;
    }
    assert OpenerLen(text) == 0;
    assert SplitFrontMatter(text).None?;
  }

  /** The comma-split fallback undoes quoting and joining with commas. */
  lemma {:induction false} TagItemsRoundTrip(items: seq<string>, q: char)
    requires |items| >= 1 && IsQuote(q)
    requires forall i :: 0 <= i < |items| ==> ',' !in items[i]
    ensures TagItems(Join(Quoted(items, q), ",")) == items
  {
    var quoted := Quoted(items, q);
    SplitOnJoin(quoted, ',');
    var r := TagItems(Join(quoted, ","));
    TagItemsShape(Join(quoted, ","));
    assert |r| == |items|;
    forall i | 0 <= i < |items|
      ensures r[i] == items[i]
    {
      StripQuotedItem(items[i], q);
    }
  }

  /** One quoted item comes back unchanged through the fallback's trim and quote strip. */
  lemma StripQuotedItem(x: string, q: char)
    requires IsQuote(q)
    ensures StripEdgeQuotes(Trim([q] + x + [q])) == x
  {
    var t := [q] + x + [q];
    assert t[0] == q && t[|t| - 1] == q;
    assert !IsSpace(q);
    TrimWithoutEdgeSpace(t);
    assert Trim(t) == t;
    var a := t[1..];
    assert a == x + [q];
    assert a[..|a| - 1] == x;
    assert StripEdgeQuotes(t) == x;
  }

  /** Each item wrapped in the quote `q`. */
  function Quoted(items: seq<string>, q: char): (r: seq<string>)
    ensures |r| == |items|
    ensures forall i :: 0 <= i < |items| ==> r[i] == [q] + items[i] + [q]
  {
    seq(|items|, i requires 0 <= i < |items| => [q] + items[i] + [q])
  }

  lemma TrimWithoutEdgeSpace(s: string)
    requires s == [] || (!IsSpace(s[0]) && !IsSpace(s[|s| - 1]))
    ensures Trim(s) == s
  {
  }

  /** Joining pieces without the separator and splitting again gives the pieces back. */
  lemma {:induction false} SplitOnJoin(parts: seq<string>, sep: char)
    requires |parts| >= 1
    requires forall i :: 0 <= i < |parts| ==> sep !in parts[i]
    ensures SplitOn(Join(parts, [sep]), sep) == parts
    decreases |parts|
  {
    if |parts| > 1 {
      var rest := Join(parts[1..], [sep]);
      SplitOnJoin(parts[1..], sep);
      IndexOfFirst(parts[0], sep, rest);
      var s := parts[0] + [sep] + rest;
      assert s[..|parts[0]|] == parts[0];
      assert s[|parts[0]| + 1..] == rest;
    } else {
      assert Join(parts, [sep]) == parts[0];
    }
  }

  /** The header of the example post below. */
  const ExampleHeader: string := "a: 1\nb: 2"

  /** An example post: an opening line, the header, a closing line and a body. */
  const ExampleContent: string := "---\n" + ExampleHeader + "\n---\nBody text"

  /** The example's header runs to its first closing line. */
  lemma ExampleSplit()
    ensures SplitFrontMatter(ExampleContent) == Some((ExampleHeader, "Body text"))
  {
    var s, h := ExampleContent, ExampleHeader;
    ExampleDelimited();
    var n, m := DelimitersFound(s, h, "Body text");
    ExampleNoEarlierCloser();
    var q := FindCloser(s, n).value;
    assert q >= n + |h|;
    FoundAt(s, n, m, h, "Body text");
  }

  /** The example is an opener, its header, a closer and its body. */
  lemma ExampleDelimited()
    ensures Delimited(ExampleContent, ExampleHeader, "Body text")
  {
    assert IsOpener("---\n") && IsCloser("\n---\n");
    assert ExampleContent == "---\n" + ExampleHeader + "\n---\n" + "Body text";
  }

  /** No closing line starts inside the example's header. */
  lemma ExampleNoEarlierCloser()
    ensures forall q :: 4 <= q < 4 + |ExampleHeader| ==> CloserLen(ExampleContent, q) == 0
  {
    var s := ExampleContent;
    forall q | 4 <= q < 4 + |ExampleHeader|
      ensures CloserLen(s, q) == 0
    {
      if q == 8 {
        assert s[9] == 'b';
      } else {
        assert s[q] != '\n' && s[q] != '\r';
      }
    }
  }

  // ----- The title and meta line of `renderPost` -----

  /** `metadata[key]`, or `None` for `undefined`. */
  function Field(metadata: map<string, Value>, key: string): Option<Value> {
    if key in metadata then Some(metadata[key]) else None
  }

  /** JavaScript truthiness of a metadata field: present, and a non-empty string or any array. */
  predicate Truthy(v: Option<Value>) {
    v.Some? && (v.value.List? || v.value.text != "")
  }

  /** The text a value shows as: an array converts to its items joined with commas. */
  function Display(v: Value): string {
    match v
    case Text(t) => t
    case List(items) => Join(items, ",")
  }

  /** The heading's fallback when there is no title. */
  const Untitled: string := "제목 없음"

  /** `metadata.title || "제목 없음"`. */
  function PostTitle(metadata: map<string, Value>): (r: string)
    ensures Truthy(Field(metadata, "title")) ==> r == Display(metadata["title"])
    ensures !Truthy(Field(metadata, "title")) ==> r == Untitled
  {
    var t := Field(metadata, "title");
    if Truthy(t) then Display(t.value) else Untitled
  }

  /** The separator between date and category. */
  const MetaSeparator: string := " · "

  /** `metaParts`: the date, then the category, each only when truthy. */
  function MetaParts(metadata: map<string, Value>): seq<string> {
    var date := Field(metadata, "date");
    var category := Field(metadata, "category");
    (if Truthy(date) then [Display(date.value)] else []) +
    (if Truthy(category) then [Display(category.value)] else [])
  }

  /** `metaParts.join(" · ")`: date and category joined by the separator, the absent ones
      left out with their separator. */
  function MetaLine(metadata: map<string, Value>): (r: string)
    ensures var date, category := Field(metadata, "date"), Field(metadata, "category");
      r == if Truthy(date) && Truthy(category) then Display(date.value) + MetaSeparator + Display(category.value)
           else if Truthy(date) then Display(date.value)
           else if Truthy(category) then Display(category.value)
           else ""
  {
    var parts := MetaParts(metadata);
    assert |parts| == 2 ==> Join(parts, MetaSeparator) == parts[0] + MetaSeparator + parts[1] by {
      if |parts| == 2 {
        assert parts[1..] == [parts[1]];
      }
    }
    Join(parts, MetaSeparator)
  }

  /** The tag chips: written only when `metadata.tags` is a non-empty array. */
  function TagChips(metadata: map<string, Value>): (r: Option<seq<string>>)
    ensures r.Some? <==> "tags" in metadata && metadata["tags"].List? && metadata["tags"].items != []
    ensures r.Some? ==> r.value == metadata["tags"].items
  {
    var tags := Field(metadata, "tags");
    if tags.Some? && tags.value.List? && |tags.value.items| > 0 then Some(tags.value.items) else None
  }
}
