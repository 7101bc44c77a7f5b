/** A form encoded as multipart/form-data (section 4 of RFC 7578, section 5.1.1 of RFC 2046)
    is read back field by field. */
module FormRoundTrip {
  import opened Bytes
  import opened FormParser
  import opened Multipart
  import opened Optional
  import opened PartBody
  import opened Text

  /** A field or, with a file name, an uploaded file; `more` are the names and values of its headers
      besides the disposition. */
  datatype Entry = Entry(name: string, value: string, filename: Option<string>, more: seq<(string, string)>)

  function Quoted(key: string, value: string): string {
    key + "=" + ("\"" + value + "\"")
  }

  /** The value of the Content-Disposition header of an entry. */
  function DispositionValue(e: Entry): string {
    " form-data" + [';'] +
    match e.filename
    case None => " " + Quoted("name", e.name) + CRLF
    case Some(f) => (" " + Quoted("name", e.name)) + [';'] + (" " + Quoted("filename", f) + CRLF)
  }

  const DISPOSITION: string := "Content-Disposition"

  function HeaderLine(e: Entry): string {
    DISPOSITION + [':'] + DispositionValue(e)
  }

  lemma ColonFound(s: string, i: nat)
    requires i < |s| && s[i] == ':'
    ensures IndexOf(s, ':') < |s|
  {
    assert s == s[..|s|];
  }

  function FurtherLine(h: (string, string)): (line: string)
    ensures IndexOf(line, ':') < |line|
  {
    var line := h.0 + [':'] + (h.1 + CRLF);
    ColonFound(line, |h.0|);
    line
  }

  function FurtherLines(more: seq<(string, string)>): string {
    if more == [] then "" else FurtherLine(more[0]) + FurtherLines(more[1..])
  }

  /** What follows the first delimiter line of an encoded form: the parts, and then `tail`. */
  function Parts(es: seq<Entry>, b: string, tail: string): string {
    if es == [] then tail
    else
      HeaderLine(es[0]) + (FurtherLines(es[0].more) +
      (CRLF + Framed(es[0].value, b, es[1..] == [], Parts(es[1..], b, tail))))
  }

  function Encode(preamble: string, es: seq<Entry>, b: string, tail: string): string {
    preamble + (Delimiter(b, es == []) + Parts(es, b, tail))
  }

  predicate PlainName(s: string) {
    LF !in s && ';' !in s
  }

  /** Whole lines that go on with a header, each of which fits a block. */
  predicate AreContinuations(s: string, n: nat)
    requires n > 0
    decreases |s|
  {
    s != "" ==>
      && IsContinuation(s) && EndsLine(Line(s, n))
      && AreContinuations(s[|Line(s, n)|..], n)
  }

  predicate EndsLine(s: string) {
    s != "" && s[|s| - 1] == LF
  }

  function FirstLine(h: (string, string), n: nat): string {
    Line(FurtherLine(h), n)
  }

  function MoreLines(h: (string, string), n: nat): string {
    FurtherLine(h)[|FirstLine(h, n)|..]
  }

  /** A header that is no second disposition, and is neither folded into the line before nor taken for
      a boundary; it can be folded itself. */
  predicate PlainHeader(h: (string, string), b: string, n: nat)
    requires n > 0
  {
    && ':' !in h.0 && LF !in h.0
    && Lower(h.0) != "content-disposition"
    && EndsLine(FirstLine(h, n)) && AreContinuations(MoreLines(h, n), n)
    && !IsContinuation(FurtherLine(h)) && MatchBoundary(FirstLine(h, n), b).None?
  }

  /** The names fit a header line that the parser can take apart, the further headers are plain, and
      the dashed boundary does not occur in the value. */
  ghost predicate Encodable(e: Entry, b: string, n: nat)
    requires n > 0
  {
    && PlainName(e.name)
    && (e.filename.Some? ==> PlainName(e.filename.value))
    && |HeaderLine(e)| <= n
    && (forall i :: 0 <= i < |e.more| ==> PlainHeader(e.more[i], b, n))
    && !Occurs("--" + b, e.value + CRLF)
  }

  predicate PlainKey(key: string) {
    key != "" && forall c :: c in key ==> 'a' <= c <= 'z'
  }

  lemma KeyReadsBack(key: string)
    requires PlainKey(key)
    ensures Lower(Strip(key)) == key && '=' !in key
    ensures !IsSpace(key[0]) && !IsSpace(key[|key| - 1])
  {
    assert key[0] in key && key[|key| - 1] in key;
    StripCore("", key, "");
    assert "" + key + "" == key;
    LowerFixed(key);
  }

  lemma QuotesReadBack(value: string)
    ensures Unquoted(Strip("\"" + value + "\"")) == value
  {
    var quoted := "\"" + value + "\"";
    StripCore("", quoted, "");
    assert "" + quoted + "" == quoted;
    assert quoted[1..|quoted| - 1] == value;
  }

  lemma QuotedStrips(key: string, value: string, right: string)
    requires PlainKey(key) && forall c :: c in right ==> IsSpace(c)
    ensures Strip(" " + Quoted(key, value) + right) == Quoted(key, value)
  {
    hide Strip;
    KeyReadsBack(key);
    var core := Quoted(key, value);
    assert core[0] == key[0] && core[|core| - 1] == '"';
    StripCore(" ", core, right);
  }

  /** A quoted option is read back whatever its value holds, blanks and quotes included. */
  lemma OptionReadsBack(options: Options, key: string, value: string, right: string)
    requires PlainKey(key) && forall c :: c in right ==> IsSpace(c)
    ensures AddOption(options, Strip(" " + Quoted(key, value) + right)) == options[key := value]
  {
    hide Strip, Unquoted, Lower;
    QuotedStrips(key, value, right);
    KeyReadsBack(key);
    QuotesReadBack(value);
    var quoted := "\"" + value + "\"";
    var core := Quoted(key, value);
    assert core == key + ['='] + quoted;
    IndexOfConcat(key, '=', quoted);
    assert core[..|key|] == key && core[|key| + 1..] == quoted;
  }

  function OptionsOf(e: Entry): Options {
    match e.filename
    case None => map["name" := e.name]
    case Some(f) => map["name" := e.name]["filename" := f]
  }

  lemma QuotedHasNoSemicolon(key: string, value: string, right: string)
    requires PlainKey(key) && ';' !in value && ';' !in right
    ensures ';' !in " " + Quoted(key, value) + right
  {
  }

  lemma DispositionReadsBack(e: Entry)
    requires ';' !in e.name && (e.filename.Some? ==> ';' !in e.filename.value)
    ensures HeaderValue(DispositionValue(e)) == ("form-data", OptionsOf(e))
  {
    hide AddOption, Strip, Quoted, Split;
    assert PlainKey("name") && PlainKey("filename");
    StripCore(" ", "form-data", "");
    assert " " + "form-data" + "" == " form-data";
    LowerFixed("form-data");
    var name := " " + Quoted("name", e.name);
    match e.filename
    case None =>
      var piece := name + CRLF;
      QuotedHasNoSemicolon("name", e.name, CRLF);
      SplitHead(" form-data", ';', piece);
      SplitWhole(piece, ';');
      OptionReadsBack(map[], "name", e.name, CRLF);
      OneOption(map[], piece);
    case Some(f) =>
      var file := " " + Quoted("filename", f) + CRLF;
      QuotedHasNoSemicolon("name", e.name, "");
      QuotedHasNoSemicolon("filename", f, CRLF);
      assert name + "" == name;
      SplitHead(" form-data", ';', name + [';'] + file);
      SplitHead(name, ';', file);
      SplitWhole(file, ';');
      OptionReadsBack(map[], "name", e.name, "");
      OptionReadsBack(map["name" := e.name], "filename", f, CRLF);
      TwoOptions(map[], name, file);
  }

  lemma OneOption(options: Options, p: string)
    ensures AddOptions(options, [p]) == AddOption(options, Strip(p))
  {
    hide AddOption, Strip;
    assert [p][1..] == [];
  }

  lemma TwoOptions(options: Options, p: string, q: string)
    ensures AddOptions(options, [p, q]) == AddOption(AddOption(options, Strip(p)), Strip(q))
  {
    hide AddOption, Strip;
    assert [p, q][1..] == [q];
    OneOption(AddOption(options, Strip(p)), q);
  }

  lemma HeaderReadsBack(e: Entry)
    requires ';' !in e.name && (e.filename.Some? ==> ';' !in e.filename.value)
    ensures IndexOf(HeaderLine(e), ':') < |HeaderLine(e)|
    ensures AddHeader(NO_HEADERS, HeaderLine(e)) ==
              Part(Some("form-data"), OptionsOf(e), "text/plain", map[],
                   [(DISPOSITION, DispositionValue(e))])
  {
    hide HeaderValue, DispositionValue, OptionsOf;
    var (h, v) := (DISPOSITION, DispositionValue(e));
    var line := HeaderLine(e);
    assert ':' !in h;
    IndexOfConcat(h, ':', v);
    assert line[..|h|] == h && line[|h| + 1..] == v;
    assert Lower(h) == "content-disposition";
    DispositionReadsBack(e);
  }

  function WithFurther(part: Part, more: seq<(string, string)>): Part
    decreases |more|
  {
    if more == [] then part else WithFurther(AddHeader(part, FurtherLine(more[0])), more[1..])
  }

  /** An empty file name is none. */
  function GivenName(filename: Option<string>): Option<string> {
    if filename == Some("") then None else filename
  }

  function FieldOf(e: Entry): Field {
    Field(Some(e.name), e.value, GivenName(e.filename),
          WithFurther(Part(Some("form-data"), OptionsOf(e), "text/plain", map[],
                           [(DISPOSITION, DispositionValue(e))]), e.more))
  }

  /** A header line without its line break. */
  function HeaderText(e: Entry): string {
    DISPOSITION + [':'] + (" form-data" + [';'] +
    match e.filename
    case None => " " + Quoted("name", e.name)
    case Some(f) => (" " + Quoted("name", e.name)) + [';'] + (" " + Quoted("filename", f)))
  }

  lemma HeaderTextPlain(e: Entry)
    requires PlainName(e.name) && (e.filename.Some? ==> PlainName(e.filename.value))
    ensures HeaderLine(e) == HeaderText(e) + CRLF && LF !in HeaderText(e)
  {
  }

  lemma HeaderIsLine(e: Entry, n: nat, b: string, rest: string)
    requires PlainName(e.name) && (e.filename.Some? ==> PlainName(e.filename.value))
    requires |HeaderLine(e)| <= n
    ensures Line(HeaderLine(e) + rest, n) == HeaderLine(e)
    ensures MatchBoundary(HeaderLine(e), b).None? && !IsBlank(HeaderLine(e))
  {
    var line := HeaderLine(e);
    assert line[0] == 'C';
    assert Line(line + rest, n) == line by {
      hide HeaderText, HeaderLine;
      HeaderTextPlain(e);
      CRLFLine(HeaderText(e), n);
      LineIgnoresRest(line, rest, n);
    }
  }

  lemma BlankIsLine(n: nat, b: string, rest: string)
    requires n >= 2
    ensures Line(CRLF + rest, n) == CRLF && MatchBoundary(CRLF, b).None?
  {
    WholeLine(CRLF, n);
    LineIgnoresRest(CRLF, rest, n);
  }

  lemma FurtherKeepsDisposition(part: Part, h: (string, string))
    requires ':' !in h.0 && Lower(h.0) != "content-disposition"
    ensures AddHeader(part, FurtherLine(h)).disp == part.disp
    ensures AddHeader(part, FurtherLine(h)).options == part.options
  {
    hide HeaderValue, Lower;
    IndexOfConcat(h.0, ':', h.1 + CRLF);
    assert FurtherLine(h)[..|h.0|] == h.0;
  }

  lemma {:induction false} FurtherKeepDisposition(part: Part, more: seq<(string, string)>, b: string, n: nat)
    requires n > 0 && forall i :: 0 <= i < |more| ==> PlainHeader(more[i], b, n)
    ensures WithFurther(part, more).disp == part.disp && WithFurther(part, more).options == part.options
    decreases |more|
  {
    hide AddHeader;
    if more != [] {
      assert PlainHeader(more[0], b, n);
      FurtherKeepsDisposition(part, more[0]);
      hide PlainHeader;
      FurtherKeepDisposition(AddHeader(part, FurtherLine(more[0])), more[1..], b, n);
    }
  }

  lemma FurtherIsLines(h: (string, string), n: nat, b: string, rest: string)
    requires n > 0 && PlainHeader(h, b, n)
    ensures FurtherLine(h) == FirstLine(h, n) + MoreLines(h, n)
    ensures Line(FurtherLine(h) + rest, n) == FirstLine(h, n)
    ensures FirstLine(h, n) != "" && !IsBlank(FirstLine(h, n)) && !IsContinuation(FirstLine(h, n))
  {
    hide Lower, MatchBoundary, AreContinuations;
    var (text, line) := (FurtherLine(h), FirstLine(h, n));
    LineIgnoresRest(text, rest, n);
    assert text[|h.0|] == ':' && forall i :: 0 <= i < |h.0| ==> text[i] == h.0[i] && h.0[i] in h.0;
    assert |line| > |h.0|;
    assert line[|h.0|] == ':';
  }

  lemma {:induction false} ContinuationsEnd(s: string, n: nat)
    requires n > 0 && AreContinuations(s, n) && s != ""
    ensures EndsLine(s)
    decreases |s|
  {
    hide Line;
    var rest := s[|Line(s, n)|..];
    if rest == "" {
      assert s == Line(s, n);
    } else {
      ContinuationsEnd(rest, n);
    }
  }

  /** Continuation lines are taken into the line before them. */
  lemma {:induction false} UnfoldMore(line: string, c: string, next: string, tail: string, n: nat)
    requires n > 0 && AreContinuations(c, n)
    requires Line(next + tail, n) == next && !IsContinuation(next)
    ensures Unfold(line, c + (next + tail), n) == Unfolded(line + c, next, tail)
    decreases |c|
  {
    hide Line, EndsLine, IsContinuation;
    var s := c + (next + tail);
    if c == "" {
      assert s == next + tail && line + c == line && s[|next|..] == tail;
    } else {
      ContinuationsEnd(c, n);
      EndsLineIs(c);
      LineIgnoresRest(c, next + tail, n);
      var first := Line(c, n);
      assert c == first + c[|first|..];
      ContinuationIs(c, n);
      assert s[|first|..] == c[|first|..] + (next + tail);
      UnfoldMore(line + first, c[|first|..], next, tail, n);
      assert (line + first) + c[|first|..] == line + c;
    }
  }

  lemma EndsLineIs(s: string)
    requires EndsLine(s)
    ensures s != "" && s[|s| - 1] == LF
  {
  }

  lemma ContinuationIs(c: string, n: nat)
    requires n > 0 && IsContinuation(c)
    ensures IsContinuation(Line(c, n))
  {
  }

  lemma NextHeader(part: Part, line: string, c: string, next: string, tail: string, n: nat, b: string)
    requires n > 0 && !IsBlank(line) && IndexOf(line + c, ':') < |line + c| && AreContinuations(c, n)
    requires next != "" && Line(next + tail, n) == next && !IsContinuation(next) && MatchBoundary(next, b).None?
    ensures ReadHeaders(part, line, c + (next + tail), n, b) ==
            ReadHeaders(AddHeader(part, line + c), next, tail, n, b)
  {
    hide AddHeader, MatchBoundary, Line, IsBlank, IsContinuation, AreContinuations;
    UnfoldMore(line, c, next, tail, n);
  }

  /** Header lines, the first of which is `line` with the continuations `c`, then a blank line: the body
      follows. */
  lemma {:induction false} PlainHeaders(part: Part, line: string, c: string, more: seq<(string, string)>, n: nat,
                                        b: string, rest: string)
    requires n >= 2 && !IsBlank(line) && IndexOf(line + c, ':') < |line + c| && AreContinuations(c, n)
    requires forall i :: 0 <= i < |more| ==> PlainHeader(more[i], b, n)
    ensures ReadHeaders(part, line, c + (FurtherLines(more) + (CRLF + rest)), n, b) ==
            ToBody(WithFurther(AddHeader(part, line + c), more), rest)
    decreases |more|
  {
    hide AddHeader, MatchBoundary, Line, ReadHeaders, FurtherLine, AreContinuations;
    if more == [] {
      BlankIsLine(n, b, rest);
      NextHeader(part, line, c, CRLF, rest, n, b);
      BlankEnds(AddHeader(part, line + c), rest, n, b);
      assert FurtherLines(more) + (CRLF + rest) == CRLF + rest;
    } else {
      hide FirstLine, MoreLines, IsBlank, IsContinuation;
      var tail := FurtherLines(more[1..]) + (CRLF + rest);
      var (next, c') := (FirstLine(more[0], n), MoreLines(more[0], n));
      assert PlainHeader(more[0], b, n);
      FurtherIsLines(more[0], n, b, tail);
      AppendAssoc(FurtherLine(more[0]), FurtherLines(more[1..]), CRLF + rest);
      AppendAssoc(next, c', tail);
      NextHeader(part, line, c, next, c' + tail, n, b);
      hide PlainHeader;
      PlainHeaders(AddHeader(part, line + c), next, c', more[1..], n, b, rest);
    }
  }

  lemma BlankEnds(part: Part, rest: string, n: nat, b: string)
    requires n > 0
    ensures ReadHeaders(part, CRLF, rest, n, b) == ToBody(part, rest)
  {
  }

  /** One encoded part is read back, and the parser goes on after its delimiter line. */
  lemma PartStepReadsBack(e: Entry, n: nat, b: string, last: bool, rest: string)
    requires LF !in b && |b| + 6 <= n && Encodable(e, b, n)
    ensures StepPart(HeaderLine(e) + (FurtherLines(e.more) + (CRLF + Framed(e.value, b, last, rest))), n, b) ==
            Collect(FieldOf(e), rest)
  {
    hide AddHeader, MatchBoundary, Line, HeaderLine, Framed, ReadHeaders, Occurs, ReadPart, FurtherLines,
      WithFurther, PlainHeader;
    var line := HeaderLine(e);
    var framed := Framed(e.value, b, last, rest);
    var below := FurtherLines(e.more) + (CRLF + framed);
    var s := line + below;
    HeaderIsLine(e, n, b, below);
    HeaderReadsBack(e);
    assert s[|line|..] == below;
    assert line + "" == line && "" + below == below;
    PlainHeaders(NO_HEADERS, line, "", e.more, n, b, framed);
    PartReadsBack(e.value, b, last, rest, n);
    assert ReadPart(framed, n, b) == PartRead(e.value, rest, Returned(last));
    var part := AddHeader(NO_HEADERS, line);
    FurtherKeepDisposition(part, e.more, b, n);
    assert MakeField(WithFurther(part, e.more), e.value) == FieldOf(e);
  }

  function FieldsOf(es: seq<Entry>): (fields: seq<Field>)
    ensures |fields| == |es|
    ensures forall i :: 0 <= i < |es| ==> fields[i] == FieldOf(es[i])
  {
    if es == [] then [] else [FieldOf(es[0])] + FieldsOf(es[1..])
  }

  /** The parts of an encoded form are read back in order; then the tail is parsed. */
  lemma {:induction false} PartsReadBack(es: seq<Entry>, n: nat, b: string, tail: string)
    requires LF !in b && |b| + 6 <= n
    requires forall i :: 0 <= i < |es| ==> Encodable(es[i], b, n)
    ensures ReadParts(Parts(es, b, tail), n, b) ==
            Prefixed(FieldsOf(es), ReadParts(tail, n, b))
    decreases |es|
  {
    hide Encodable, FieldOf, StepPart, Framed, HeaderLine, FurtherLines;
    if es != [] {
      var rest := Parts(es[1..], b, tail);
      PartStepReadsBack(es[0], n, b, es[1..] == [], rest);
      PartsReadBack(es[1..], n, b, tail);
      var more := ReadParts(tail, n, b);
      assert FieldsOf(es) == [FieldOf(es[0])] + FieldsOf(es[1..]);
      assert [FieldOf(es[0])] + (FieldsOf(es[1..]) + more.fields) == FieldsOf(es) + more.fields;
    }
  }

  /** A preamble without boundary lines is skipped, and so is the first delimiter line. */
  lemma PreambleIsSkipped(preamble: string, b: string, last: bool, rest: string, n: nat)
    requires LF !in b && |b| + 6 <= n
    requires WholeLines(preamble) && NoneIsBoundary(Blocks(preamble, n), b)
    ensures var r := ReadPart(preamble + (Delimiter(b, last) + rest), n, b);
            r.rest == rest && r.outcome == Returned(last)
  {
    hide StopAt, Blocks, NoneIsBoundary, MatchBoundary, WithoutTrailingBreak, Delimiter, Line;
    var d := Delimiter(b, last);
    var s := preamble + (d + rest);
    PassesBlocks(preamble, n, b);
    StopAtConcat(preamble, d + rest, n, b);
    StopAtDelimiter(b, last, rest, n);
    DelimiterMatches(b, last, n, rest);
    var k := |preamble|;
    assert s[k..] == d + rest;
    DropTwice(s, k, |d|);
    assert (d + rest)[|d|..] == rest;
  }

  /** The whole form: a preamble without boundary lines is skipped, the entries come back in
      order, and whatever follows the closing delimiter line is parsed as further parts. */
  lemma FormReadsBack(preamble: string, es: seq<Entry>, n: nat, b: string, tail: string)
    requires LF !in b && |b| + 6 <= n
    requires WholeLines(preamble) && NoneIsBoundary(Blocks(preamble, n), b)
    requires forall i :: 0 <= i < |es| ==> Encodable(es[i], b, n)
    ensures ReadForm(Encode(preamble, es, b, tail), n, b) ==
            Prefixed(FieldsOf(es), ReadParts(tail, n, b))
  {
    hide Encodable, Parts, ReadParts, ReadPart, Delimiter, FieldsOf, Prefixed;
    PreambleIsSkipped(preamble, b, es == [], Parts(es, b, tail), n);
    PartsReadBack(es, n, b, tail);
  }

  /** The round trip: every form comes back, for every block size that fits its lines; only an empty
      file name is not told from none. */
  lemma FormRoundTrips(es: seq<Entry>, n: nat, b: string)
    requires LF !in b && |b| + 6 <= n
    requires forall i :: 0 <= i < |es| ==> Encodable(es[i], b, n)
    ensures var form := ReadForm(Encode("", es, b, ""), n, b);
            && form.error == None && |form.fields| == |es|
            && forall i :: 0 <= i < |es| ==>
                 && form.fields[i].name == Some(es[i].name)
                 && form.fields[i].value == es[i].value
                 && form.fields[i].filename == if es[i].filename == Some("") then None else es[i].filename
  {
    hide Encodable, Encode;
    FormReadsBack("", es, n, b, "");
    assert ReadParts("", n, b) == FormRead([], None);
    assert FieldsOf(es) + [] == FieldsOf(es);
  }

  /** The number of continuation lines that blocks begin with. */
  function Continuations(blocks: seq<string>): (k: nat)
    ensures k <= |blocks|
  {
    if blocks != [] && IsContinuation(blocks[0]) then 1 + Continuations(blocks[1..]) else 0
  }

  /** Up to the first closing delimiter or the end, no block is a blank line, and there is a colon in
      every header line with its continuation lines. */
  predicate IsIgnorable(blocks: seq<string>, b: string)
    decreases |blocks|, 0
  {
    blocks == [] ||
    match MatchBoundary(blocks[0], b)
    case Some(last) => last || IsIgnorable(blocks[1..], b)
    case None => IsIgnorableHeader(blocks[0], blocks[1..], b)
  }

  predicate IsIgnorableHeader(line: string, blocks: seq<string>, b: string)
    decreases |blocks|, 1
  {
    var k := Continuations(blocks);
    !IsBlank(line) && ':' in line + Concat(blocks[..k]) && IsIgnorable(blocks[k..], b)
  }

  lemma {:induction false} UnfoldIs(line: string, s: string, n: nat)
    requires n > 0
    ensures var blocks := Blocks(s, n);
            var k := Continuations(blocks);
            var u := Unfold(line, s, n);
            && u.line == line + Concat(blocks[..k])
            && blocks[k..] == (if u.next == "" then [] else [u.next] + Blocks(u.rest, n))
            && (u.next == "" ==> u.rest == "")
    decreases |s|
  {
    hide Line;
    var blocks := Blocks(s, n);
    if s == "" {
      assert line + Concat([]) == line;
    } else {
      var next := Line(s, n);
      var tail := Blocks(s[|next|..], n);
      assert blocks == [next] + tail && blocks[1..] == tail;
      if IsContinuation(next) {
        UnfoldIs(line + next, s[|next|..], n);
        var k := Continuations(tail);
        assert blocks[..1 + k] == [next] + tail[..k] && blocks[1 + k..] == tail[k..];
        ConcatCons(next, tail[..k]);
        AppendAssoc(line, next, Concat(tail[..k]));
      } else {
        assert line + Concat(blocks[..0]) == line;
      }
    }
  }

  lemma ColonIn(s: string)
    ensures IndexOf(s, ':') < |s| <==> ':' in s
  {
    assert s == s[..|s|];
    assert forall i :: 0 <= i < |s| ==> s[i] in s;
  }

  /** The parser takes text for neither a part nor an error if and only if it is ignorable. */
  lemma {:induction false} PartsIgnoredIff(s: string, n: nat, b: string)
    requires n > 0
    ensures ReadParts(s, n, b) == FormRead([], None) <==> IsIgnorable(Blocks(s, n), b)
    decreases |s|, 1
  {
    hide ReadHeaders, MatchBoundary, Line, ReadPart, IsIgnorableHeader;
    if s != "" {
      var line := Line(s, n);
      var s1 := s[|line|..];
      assert Blocks(s, n) == [line] + Blocks(s1, n) && Blocks(s, n)[1..] == Blocks(s1, n);
      if MatchBoundary(line, b) == Some(true) {
      } else if MatchBoundary(line, b).Some? {
        PartsIgnoredIff(s1, n, b);
      } else {
        HeadersIgnoredIff(NO_HEADERS, line, s1, n, b);
      }
    }
  }

  /** The same for header lines, the first of which is `line`. */
  lemma {:induction false} HeadersIgnoredIff(part: Part, line: string, s: string, n: nat, b: string)
    requires n > 0
    ensures match ReadHeaders(part, line, s, n, b)
            case ToBody(_, _) => !IsIgnorableHeader(line, Blocks(s, n), b)
            case NoColon(_) => !IsIgnorableHeader(line, Blocks(s, n), b)
            case NoBody(ended, rest) =>
              |rest| <= |s| &&
              (IsIgnorableHeader(line, Blocks(s, n), b) <==> ended || ReadParts(rest, n, b) == FormRead([], None))
    decreases |s|, 0
  {
    hide AddHeader, MatchBoundary, Line, ReadPart, Blocks;
    if !IsBlank(line) {
      var u := Unfold(line, s, n);
      UnfoldIs(line, s, n);
      ColonIn(u.line);
      hide Unfold, Continuations;
      if IndexOf(u.line, ':') < |u.line| && u.next != "" {
        var left := [u.next] + Blocks(u.rest, n);
        assert left[1..] == Blocks(u.rest, n);
        if MatchBoundary(u.next, b).Some? {
          PartsIgnoredIff(u.rest, n, b);
        } else {
          HeadersIgnoredIff(AddHeader(part, u.line), u.next, u.rest, n, b);
        }
      }
    }
  }

  /** Section 5.1.1 of RFC 2046 lets an epilogue follow the closing delimiter, to be ignored.
      The parser ignores exactly those that look like header lines without a body. */
  lemma EpilogueIgnoredIff(es: seq<Entry>, n: nat, b: string, tail: string)
    requires LF !in b && |b| + 6 <= n
    requires forall i :: 0 <= i < |es| ==> Encodable(es[i], b, n)
    ensures ReadForm(Encode("", es, b, tail), n, b) == ReadForm(Encode("", es, b, ""), n, b) <==>
            IsIgnorable(Blocks(tail, n), b)
  {
    hide Encodable, Encode, IsIgnorable, Blocks, ReadParts, ReadForm;
    NoPreamble(es, n, b, tail);
    NoPreamble(es, n, b, "");
    PartsIgnoredIff(tail, n, b);
    NothingLeft(n, b);
    PrefixedSame(FieldsOf(es), ReadParts(tail, n, b));
  }

  lemma NoPreamble(es: seq<Entry>, n: nat, b: string, tail: string)
    requires LF !in b && |b| + 6 <= n
    requires forall i :: 0 <= i < |es| ==> Encodable(es[i], b, n)
    ensures ReadForm(Encode("", es, b, tail), n, b) == Prefixed(FieldsOf(es), ReadParts(tail, n, b))
  {
    hide Encodable, Encode;
    FormReadsBack("", es, n, b, tail);
  }

  lemma NothingLeft(n: nat, b: string)
    requires n > 0
    ensures ReadParts("", n, b) == FormRead([], None)
  {
  }

  lemma PrefixedSame(fields: seq<Field>, more: FormRead)
    ensures Prefixed(fields, more) == Prefixed(fields, FormRead([], None)) <==> more == FormRead([], None)
  {
    assert fields + [] == fields;
    if fields + more.fields == fields {
      assert |more.fields| == 0;
    }
  }

  /** So no epilogue is ignored that begins with a line of text without a colon: it raises an error,
      or is an empty line, after which a body is read. */
  lemma EpilogueIsParsed(es: seq<Entry>, n: nat, b: string, text: string, rest: string)
    requires LF !in b && |b| + 6 <= n
    requires forall i :: 0 <= i < |es| ==> Encodable(es[i], b, n)
    requires LF !in text && ':' !in text && |text| + 2 <= n && MatchBoundary(text + CRLF, b).None?
    requires !IsContinuation(rest)
    ensures ReadForm(Encode("", es, b, text + CRLF + rest), n, b) != ReadForm(Encode("", es, b, ""), n, b)
    ensures text != "" ==> ReadForm(Encode("", es, b, text + CRLF + rest), n, b) ==
                           FormRead(FieldsOf(es), Some(ValueError))
  {
    hide Encodable, Encode, MatchBoundary, Line, ReadForm, ReadParts, Blocks, IsIgnorable, FieldsOf, Prefixed;
    var line := text + CRLF;
    EpilogueIgnoredIff(es, n, b, line + rest);
    NoPreamble(es, n, b, line + rest);
    TextLine(text, rest, n);
    NotIgnorable(line, rest, n, b);
    if text != "" {
      TextIsNotBlank(text);
      ErrorAt(line, rest, n, b);
      PrefixedError(FieldsOf(es), ValueError);
    }
  }

  lemma TextIsNotBlank(text: string)
    requires text != "" && LF !in text
    ensures text + CRLF != "" && !IsBlank(text + CRLF)
  {
    assert |text + CRLF| > 2;
  }

  lemma PrefixedError(fields: seq<Field>, e: FormError)
    ensures Prefixed(fields, FormRead([], Some(e))) == FormRead(fields, Some(e))
  {
    assert fields + [] == fields;
  }

  lemma TextLine(text: string, rest: string, n: nat)
    requires LF !in text && |text| + 2 <= n
    ensures Line(text + CRLF + rest, n) == text + CRLF
    ensures Blocks(text + CRLF + rest, n) == [text + CRLF] + Blocks(rest, n)
  {
    hide Line;
    var line := text + CRLF;
    CRLFLine(text, n);
    LineIgnoresRest(line, rest, n);
    assert (line + rest)[|line|..] == rest;
  }

  lemma NotIgnorable(line: string, rest: string, n: nat, b: string)
    requires n > 0 && ':' !in line && MatchBoundary(line, b).None? && !IsContinuation(rest)
    ensures !IsIgnorable([line] + Blocks(rest, n), b)
  {
    hide MatchBoundary, Blocks;
    var blocks := Blocks(rest, n);
    FirstIsNoContinuation(rest, n);
    assert ([line] + blocks)[1..] == blocks && blocks[..0] == [];
    assert line + Concat([]) == line;
  }

  lemma ErrorAt(line: string, rest: string, n: nat, b: string)
    requires n > 0 && line != "" && !IsBlank(line) && ':' !in line && MatchBoundary(line, b).None?
    requires !IsContinuation(rest) && Line(line + rest, n) == line
    ensures ReadParts(line + rest, n, b) == FormRead([], Some(ValueError))
  {
    hide MatchBoundary, Line, ReadHeaders, ReadPart;
    assert (line + rest)[|line|..] == rest;
    NoColonAt(line, rest, n, b);
  }

  lemma NoColonAt(line: string, rest: string, n: nat, b: string)
    requires n > 0 && !IsBlank(line) && ':' !in line && !IsContinuation(rest)
    ensures ReadHeaders(NO_HEADERS, line, rest, n, b).NoColon?
  {
    hide Line, MatchBoundary, AddHeader;
    UnfoldIs(line, rest, n);
    FirstIsNoContinuation(rest, n);
    assert line + Concat([]) == line;
    ColonIn(line);
  }

  lemma FirstIsNoContinuation(rest: string, n: nat)
    requires n > 0 && !IsContinuation(rest)
    ensures Continuations(Blocks(rest, n)) == 0
  {
    if rest != "" {
      assert Line(rest, n)[0] == rest[0];
    }
  }

  ghost predicate NoSemicolons(options: Options) {
    forall k :: k in options ==> ';' !in options[k]
  }

  lemma SliceLacks(s: string, c: char, i: nat, j: nat)
    requires c !in s && i <= j <= |s|
    ensures c !in s[i..j]
  {
  }

  lemma AddOptionNoSemicolon(options: Options, p: string)
    requires NoSemicolons(options) && ';' !in p
    ensures NoSemicolons(AddOption(options, Strip(p)))
  {
    hide Lower, Strip, IndexOf;
    var q := Strip(p);
    assert ';' !in q;
    var i := IndexOf(q, '=');
    if i < |q| {
      SliceLacks(q, ';', i + 1, |q|);
      var value := Strip(q[i + 1..]);
      assert ';' !in value;
      SliceLacks(value, ';', 0, |value|);
      if |value| >= 2 {
        SliceLacks(value, ';', 1, |value| - 1);
      }
    }
  }

  lemma {:induction false} AddOptionsNoSemicolon(options: Options, pieces: seq<string>)
    requires NoSemicolons(options)
    requires forall i :: 0 <= i < |pieces| ==> ';' !in pieces[i]
    ensures NoSemicolons(AddOptions(options, pieces))
    decreases |pieces|
  {
    hide AddOption, NoSemicolons, Strip;
    if pieces != [] {
      AddOptionNoSemicolon(options, pieces[0]);
      AddOptionsNoSemicolon(AddOption(options, Strip(pieces[0])), pieces[1..]);
    }
  }

  /** A name is read back from its header exactly when there is no semicolon in it, although
      it is quoted. */
  lemma NameReadsBackIff(name: string)
    ensures var options := HeaderValue(DispositionValue(Entry(name, "", None, []))).1;
            "name" in options && options["name"] == name <==> ';' !in name
  {
    hide AddOptions, Split, DispositionValue;
    var v := DispositionValue(Entry(name, "", None, []));
    if ';' !in name {
      DispositionReadsBack(Entry(name, "", None, []));
    } else {
      SplitPieces(v, ';');
      assert NoSemicolons(map[]);
      AddOptionsNoSemicolon(map[], Split(v, ';')[1..]);
    }
  }
}
