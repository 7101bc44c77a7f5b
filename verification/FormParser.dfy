/** Parsing a multipart form: header lines, parts, fields
    (`parse_header` and the multipart loop of `FieldStorage.__init__`,
    lib/python/mod_python/util.py). */
module FormParser {
  import opened Bytes
  import opened Multipart
  import opened Optional
  import opened RequestBody
  import opened Text

  type Options = map<string, string>

  function Unquoted(value: string): string {
    if |value| >= 2 && value[0] == '"' && value[|value| - 1] == '"' then value[1..|value| - 1]
    else value
  }

  /** Adds the option written in `p`, if there is an equals sign in it. */
  function AddOption(options: Options, p: string): Options {
    var i := IndexOf(p, '=');
    if i == |p| then options
    else options[Lower(Strip(p[..i])) := Unquoted(Strip(p[i + 1..]))]
  }

  function AddOptions(options: Options, pieces: seq<string>): Options
    decreases |pieces|
  {
    if pieces == [] then options
    else AddOptions(AddOption(options, Strip(pieces[0])), pieces[1..])
  }

  /** A header value: its main part and its options. */
  function HeaderValue(v: string): (string, Options) {
    var pieces := Split(v, ';');
    (Lower(Strip(pieces[0])), AddOptions(map[], pieces[1..]))
  }

  method ParseHeader(v: string) returns (key: string, options: Options)
    ensures (key, options) == HeaderValue(v)
  {
    var pieces := Split(v, ';');
    key := Lower(Strip(pieces[0]));
    options := map[];
    for i := 1 to |pieces|
      invariant AddOptions(map[], pieces[1..]) == AddOptions(options, pieces[i..])
    {
      options := AddOption(options, Strip(pieces[i]));
      assert pieces[i..][1..] == pieces[i + 1..];
    }
  }

  /** What the header lines of a part said. */
  datatype Part = Part(disp: Option<string>, options: Options, ctype: string,
                       typeOptions: Options, headers: seq<(string, string)>)

  const NO_HEADERS: Part := Part(None, map[], "text/plain", map[], [])

  /** Takes in one unfolded header line; there must be a colon in it. */
  function AddHeader(part: Part, line: string): Part
    requires IndexOf(line, ':') < |line|
  {
    var i := IndexOf(line, ':');
    var (h, v) := (line[..i], line[i + 1..]);
    var part := part.(headers := part.headers + [(h, v)]);
    if Lower(h) == "content-disposition" then
      var (key, options) := HeaderValue(v);
      part.(disp := Some(key), options := options)
    else if Lower(h) == "content-type" then
      var (key, options) := HeaderValue(v);
      part.(ctype := if '/' in key then key else "application/octet-stream", typeOptions := options)
    else part
  }

  predicate IsContinuation(line: string) {
    line != "" && (line[0] == ' ' || line[0] == '\t')
  }

  /** `line` with its continuation lines, the line after them, and what follows in `s`. */
  datatype Unfolded = Unfolded(line: string, next: string, rest: string)

  function Unfold(line: string, s: string, n: nat): (u: Unfolded)
    requires n > 0
    ensures |u.next| + |u.rest| <= |s|
    decreases |s|
  {
    var next := Line(s, n);
    if IsContinuation(next) then Unfold(line + next, s[|next|..], n)
    else Unfolded(line, next, s[|next|..])
  }

  datatype HeadersRead = ToBody(part: Part, rest: string)
                       | NoBody(ended: bool, rest: string)
                       | NoColon(rest: string)

  predicate IsBlank(line: string) {
    line == "\r" || line == "\r\n"
  }

  /** Reads header lines, the first of which is `line`, up to the blank line, or up to a
      boundary or the end of the stream, which cut the part short. */
  function ReadHeaders(part: Part, line: string, s: string, n: nat, b: string): (h: HeadersRead)
    requires n > 0
    ensures |h.rest| <= |s|
    decreases |s|
  {
    if IsBlank(line) then ToBody(part, s)
    else
      var u := Unfold(line, s, n);
      if IndexOf(u.line, ':') == |u.line| then NoColon(u.rest)
      else if u.next == "" then NoBody(true, u.rest)
      else match MatchBoundary(u.next, b)
        case Some(last) => NoBody(last, u.rest)
        case None => ReadHeaders(AddHeader(part, u.line), u.next, u.rest, n, b)
  }

  datatype Field = Field(name: Option<string>, value: string, filename: Option<string>, part: Part)

  function MakeField(part: Part, body: string): Field {
    Field(if "name" in part.options then Some(part.options["name"]) else None,
          body,
          if "filename" in part.options && part.options["filename"] != "" then
            Some(part.options["filename"])
          else None,
          part)
  }

  datatype FormError = ValueError | AttributeError | BlockAssertion

  /** The fields collected, and the exception that ended the parse, if one did. */
  datatype FormRead = FormRead(fields: seq<Field>, error: Option<FormError>)

  datatype PartStep = Stop(error: Option<FormError>)
                    | Skip(rest: string)
                    | Collect(field: Field, rest: string)

  /** One turn of the constructor's loop. */
  function StepPart(s: string, n: nat, b: string): (p: PartStep)
    requires n > 0
    ensures !p.Stop? ==> |p.rest| < |s|
  {
    var line := Line(s, n);
    var s1 := s[|line|..];
    if line == "" || MatchBoundary(line, b) == Some(true) then Stop(None)
    else if MatchBoundary(line, b).Some? then Skip(s1)
    else match ReadHeaders(NO_HEADERS, line, s1, n, b)
      case NoColon(_) => Stop(Some(ValueError))
      case NoBody(ended, rest) => if ended then Stop(None) else Skip(rest)
      case ToBody(part, rest) =>
        var r := ReadPart(rest, n, b);
        if r.outcome == AssertionError then Stop(Some(BlockAssertion))
        else if part.disp.None? then Stop(Some(AttributeError))
        else Collect(MakeField(part, r.body), r.rest)
  }

  function ReadParts(s: string, n: nat, b: string): FormRead
    requires n > 0
    decreases |s|
  {
    match StepPart(s, n, b)
    case Stop(error) => FormRead([], error)
    case Skip(rest) => ReadParts(rest, n, b)
    case Collect(field, rest) =>
      var more := ReadParts(rest, n, b);
      FormRead([field] + more.fields, more.error)
  }

  /** What the constructor makes of a multipart body `s` with boundary `b`. */
  function ReadForm(s: string, n: nat, b: string): FormRead
    requires n > 0
  {
    var preamble := ReadPart(s, n, b);
    if preamble.outcome == AssertionError then FormRead([], Some(BlockAssertion))
    else ReadParts(preamble.rest, n, b)
  }

  function Prefixed(fields: seq<Field>, more: FormRead): FormRead {
    FormRead(fields + more.fields, more.error)
  }

  lemma PrefixedNone(more: FormRead)
    ensures Prefixed([], more) == more
  {
  }

  /** One turn of the loop, with `fields` collected before it. */
  lemma PartTurn(fields: seq<Field>, s: string, n: nat, b: string)
    requires n > 0
    ensures Prefixed(fields, ReadParts(s, n, b)) ==
            match StepPart(s, n, b)
            case Stop(error) => FormRead(fields, error)
            case Skip(rest) => Prefixed(fields, ReadParts(rest, n, b))
            case Collect(field, rest) => Prefixed(fields + [field], ReadParts(rest, n, b))
  {
    hide StepPart;
    assert fields + [] == fields;
    if StepPart(s, n, b).Collect? {
      var more := ReadParts(StepPart(s, n, b).rest, n, b);
      var field := StepPart(s, n, b).field;
      assert fields + ([field] + more.fields) == (fields + [field]) + more.fields;
    }
  }

  class FieldStorage {
    var list: seq<Field>

    constructor ()
      ensures list == []
    {
      list := [];
    }

    /** Appends continuation lines to `line` and reads the line after them. */
    method ReadContinuations(req: Request, line: string, n: nat) returns (full: string, next: string)
      requires req.Valid() && n > 0
      modifies req, req.client
      ensures req.Valid()
      ensures Unfolded(full, next, req.Pending()) == Unfold(line, old(req.Pending()), n)
    {
      hide Request.Pending;
      full := line;
      ghost var s := req.Pending();
      next := req.Readline(n);
      while IsContinuation(next)
        invariant req.Valid() && next == LineOf(s, n) && req.Pending() == s[|next|..]
        invariant Unfold(full, s, n) == Unfold(line, old(req.Pending()), n)
        decreases |s|
      {
        full := full + next;
        s := req.Pending();
        next := req.Readline(n);
      }
    }

    /** Reads the header lines of a part, the first of which is `first`. */
    method ReadHeaderLines(req: Request, first: string, n: nat, b: string)
      returns (part: Part, ended: Option<bool>, ok: bool)
      requires req.Valid() && n > 0
      modifies req, req.client
      ensures req.Valid()
      ensures ReadHeaders(NO_HEADERS, first, old(req.Pending()), n, b) ==
                if !ok then NoColon(req.Pending())
                else if ended.Some? then NoBody(ended.value, req.Pending())
                else ToBody(part, req.Pending())
    {
      hide Request.Pending, AddHeader, MatchBoundary, Unfold;
      part, ended, ok := NO_HEADERS, None, true;
      var line := first;
      while !IsBlank(line)
        invariant req.Valid()
        invariant ReadHeaders(part, line, req.Pending(), n, b) ==
                  ReadHeaders(NO_HEADERS, first, old(req.Pending()), n, b)
        decreases |req.Pending()|, |line|
      {
        var full, next := ReadContinuations(req, line, n);
        if IndexOf(full, ':') == |full| {
          return part, None, false;
        }
        part := AddHeader(part, full);
        line := next;
        var isBoundary := MatchBoundary(line, b);
        if line == "" {
          return part, Some(true), true;
        }
        if isBoundary.Some? {
          return part, isBoundary, true;
        }
      }
    }

    /** The constructor's work on a multipart body: the form it collects is `ReadForm` of the
        body, for every pattern of short reads. */
    method ReadMultipart(req: Request, b: string, n: nat) returns (error: Option<FormError>)
      requires req.Valid() && n > 0 && list == []
      modifies this, req, req.client
      ensures req.Valid()
      ensures FormRead(list, error) == ReadForm(old(req.Pending()), n, b)
    {
      hide Request.Pending, ReadPart, MatchBoundary, ReadHeaders, MakeField, ReadParts, Prefixed;
      ghost var goal := ReadForm(req.Pending(), n, b);
      var outcome := ReadToBoundary(req, b, null, n);
      if outcome == AssertionError {
        return Some(BlockAssertion);
      }
      var endOfStream := false;
      assert goal == Prefixed([], ReadParts(req.Pending(), n, b)) by { PrefixedNone(ReadParts(req.Pending(), n, b)); }
      while !endOfStream
        invariant req.Valid()
        invariant goal == if endOfStream then FormRead(list, None)
                          else Prefixed(list, ReadParts(req.Pending(), n, b))
        decreases !endOfStream, |req.Pending()|
      {
        PartTurn(list, req.Pending(), n, b);
        var line := req.Readline(n);
        var isBoundary := MatchBoundary(line, b);
        if line == "" || isBoundary.Some? {
          endOfStream := line == "" || isBoundary == Some(true);
          continue;
        }
        var part, ended, ok := ReadHeaderLines(req, line, n, b);
        if !ok {
          return Some(ValueError);
        }
        if ended.Some? {
          endOfStream := ended.value;
          continue;
        }
        var file := new File();
        ghost var body := ReadPart(req.Pending(), n, b).body;
        outcome := ReadToBoundary(req, b, file, n);
        assert file.data == "" + body == body;
        if outcome == AssertionError {
          return Some(BlockAssertion);
        }
        if part.disp.None? {
          return Some(AttributeError);
        }
        list := list + [MakeField(part, file.data)];
      }
      return None;
    }
  }
}
