/** Forms that end in an error, or too early. */
module FormErrors {
  import opened FormParser
  import opened FormRoundTrip
  import opened Multipart
  import opened Optional
  import opened PartBody
  import opened Text

  /** A part with headers but without a disposition. */
  function Nameless(more: seq<(string, string)>, value: string, b: string, last: bool, rest: string): string {
    FurtherLines(more) + (CRLF + Framed(value, b, last, rest))
  }

  /** It ends the parse with an error once its content is read, whatever follows. */
  lemma NamelessFails(es: seq<Entry>, n: nat, b: string, more: seq<(string, string)>, value: string, last: bool,
                      rest: string)
    requires LF !in b && |b| + 6 <= n
    requires forall j :: 0 <= j < |es| ==> Encodable(es[j], b, n)
    requires more != [] && !Occurs("--" + b, value + CRLF)
    requires forall k :: 0 <= k < |more| ==> PlainHeader(more[k], b, n)
    ensures ReadForm(Encode("", es, b, Nameless(more, value, b, last, rest)), n, b) ==
            FormRead(ReadForm(Encode("", es, b, ""), n, b).fields, Some(AttributeError))
  {
    hide Encodable, Encode, ReadParts, ReadForm, Nameless, Occurs, FieldsOf, PlainHeader;
    var s := Nameless(more, value, b, last, rest);
    NoPreamble(es, n, b, "");
    NothingLeft(n, b);
    NoPreamble(es, n, b, s);
    NamelessStops(n, b, more, value, last, rest);
    StopEnds(s, n, b, Some(AttributeError));
    assert FieldsOf(es) + [] == FieldsOf(es);
  }

  lemma StopEnds(s: string, n: nat, b: string, error: Option<FormError>)
    requires n > 0 && StepPart(s, n, b) == Stop(error)
    ensures ReadParts(s, n, b) == FormRead([], error)
  {
    hide StepPart;
  }

  lemma NamelessStops(n: nat, b: string, more: seq<(string, string)>, value: string, last: bool, rest: string)
    requires LF !in b && |b| + 6 <= n
    requires more != [] && !Occurs("--" + b, value + CRLF)
    requires forall k :: 0 <= k < |more| ==> PlainHeader(more[k], b, n)
    ensures StepPart(Nameless(more, value, b, last, rest), n, b) == Stop(Some(AttributeError))
  {
    hide AddHeader, MatchBoundary, Line, Framed, ReadHeaders, Occurs, ReadPart, WithFurther, FurtherLine, FirstLine,
      MoreLines, AreContinuations;
    var framed := Framed(value, b, last, rest);
    var (text, below) := (FurtherLine(more[0]), FurtherLines(more[1..]) + (CRLF + framed));
    var (line, c) := (FirstLine(more[0], n), MoreLines(more[0], n));
    var s := text + below;
    assert Nameless(more, value, b, last, rest) == s by {
      AppendAssoc(text, FurtherLines(more[1..]), CRLF + framed);
    }
    assert PlainHeader(more[0], b, n);
    FurtherIsLines(more[0], n, b, below);
    FurtherKeepsDisposition(NO_HEADERS, more[0]);
    assert s[|line|..] == c + below;
    hide PlainHeader;
    PlainHeaders(NO_HEADERS, line, c, more[1..], n, b, framed);
    PartReadsBack(value, b, last, rest, n);
    assert ReadPart(framed, n, b) == PartRead(value, rest, Returned(last));
    FurtherKeepDisposition(AddHeader(NO_HEADERS, text), more[1..], b, n);
  }

  /** Parts that are followed by more. */
  function OpenParts(es: seq<Entry>, b: string, tail: string): string {
    if es == [] then tail
    else
      HeaderLine(es[0]) + (FurtherLines(es[0].more) +
      (CRLF + Framed(es[0].value, b, false, OpenParts(es[1..], b, tail))))
  }

  /** A form whose stream ends in the content of a last part. */
  function CutForm(es: seq<Entry>, e: Entry, b: string): string {
    Delimiter(b, false) + OpenParts(es, b, HeaderLine(e) + (FurtherLines(e.more) + (CRLF + e.value)))
  }

  lemma {:induction false} OpenPartsReadBack(es: seq<Entry>, n: nat, b: string, tail: string)
    requires LF !in b && |b| + 6 <= n
    requires forall i :: 0 <= i < |es| ==> Encodable(es[i], b, n)
    ensures ReadParts(OpenParts(es, b, tail), n, b) == Prefixed(FieldsOf(es), ReadParts(tail, n, b))
    decreases |es|
  {
    hide Encodable, FieldOf, StepPart, Framed, HeaderLine, FurtherLines;
    if es != [] {
      PartStepReadsBack(es[0], n, b, false, OpenParts(es[1..], b, tail));
      OpenPartsReadBack(es[1..], n, b, tail);
      var more := ReadParts(tail, n, b);
      assert FieldsOf(es) == [FieldOf(es[0])] + FieldsOf(es[1..]);
      assert [FieldOf(es[0])] + (FieldsOf(es[1..]) + more.fields) == FieldsOf(es) + more.fields;
    }
  }

  /** The names and the headers of the last part are plain, and no block of its content looks like a
      boundary. */
  ghost predicate IsCutPart(e: Entry, b: string, n: nat)
    requires n > 0
  {
    && PlainName(e.name) && (e.filename.Some? ==> PlainName(e.filename.value)) && |HeaderLine(e)| <= n
    && (forall i :: 0 <= i < |e.more| ==> PlainHeader(e.more[i], b, n))
    && NoneIsBoundary(Blocks(e.value, n), b)
  }

  lemma CutPartStep(e: Entry, n: nat, b: string)
    requires n >= 2 && IsCutPart(e, b, n)
    ensures StepPart(HeaderLine(e) + (FurtherLines(e.more) + (CRLF + e.value)), n, b) ==
            if EndsCR(e.value) && |LastLine(e.value)| % n != 0 then Stop(Some(BlockAssertion))
            else Collect(FieldOf(e), "")
  {
    hide AddHeader, MatchBoundary, Line, HeaderLine, ReadHeaders, ReadPart, FurtherLines, WithFurther, PlainHeader,
      NoneIsBoundary, EndsCR, LastLine, Blocks;
    var (line, below) := (HeaderLine(e), FurtherLines(e.more) + (CRLF + e.value));
    HeaderIsLine(e, n, b, below);
    HeaderReadsBack(e);
    assert (line + below)[|line|..] == below;
    assert line + "" == line && "" + below == below;
    PlainHeaders(NO_HEADERS, line, "", e.more, n, b, e.value);
    CutStreamIff(e.value, n, b);
    FurtherKeepDisposition(AddHeader(NO_HEADERS, line), e.more, b, n);
  }

  /** A stream that ends in a part is read as if the part ended there, unless it ends in a carriage
      return with a last line that does not fill its last block: then the parse fails, and the fields
      before are those of the parts before. */
  lemma CutFormIs(es: seq<Entry>, e: Entry, n: nat, b: string)
    requires LF !in b && |b| + 6 <= n
    requires (forall j :: 0 <= j < |es| ==> Encodable(es[j], b, n)) && IsCutPart(e, b, n)
    ensures var (form, whole) := (ReadForm(CutForm(es, e, b), n, b), ReadForm(Encode("", es, b, ""), n, b));
            if EndsCR(e.value) && |LastLine(e.value)| % n != 0 then
              form == FormRead(whole.fields, Some(BlockAssertion))
            else
              && form.error == None && |form.fields| == |es| + 1 && form.fields[..|es|] == whole.fields
              && form.fields[|es|].name == Some(e.name) && form.fields[|es|].value == e.value
              && form.fields[|es|].filename == if e.filename == Some("") then None else e.filename
  {
    hide Encodable, Encode, ReadParts, ReadPart, Delimiter, FieldsOf, StepPart, EndsCR, LastLine, IsCutPart, OpenParts;
    var tail := HeaderLine(e) + (FurtherLines(e.more) + (CRLF + e.value));
    assert WholeLines("") && NoneIsBoundary(Blocks("", n), b);
    PreambleIsSkipped("", b, false, OpenParts(es, b, tail), n);
    assert "" + CutForm(es, e, b) == CutForm(es, e, b);
    OpenPartsReadBack(es, n, b, tail);
    CutPartStep(e, n, b);
    NoPreamble(es, n, b, "");
    NothingLeft(n, b);
    PartTurn(FieldsOf(es), tail, n, b);
    assert FieldsOf(es) + [] == FieldsOf(es);
  }

  /** A stream without a boundary has no fields, and is an error only if it ends in that way. */
  lemma NoBoundaryIs(s: string, n: nat, b: string)
    requires n > 0 && NoneIsBoundary(Blocks(s, n), b)
    ensures ReadForm(s, n, b) ==
            FormRead([], if EndsCR(s) && |LastLine(s)| % n != 0 then Some(BlockAssertion) else None)
  {
    hide NoneIsBoundary, Blocks, EndsCR, LastLine, ReadPart, ReadParts;
    CutStreamIff(s, n, b);
    NothingLeft(n, b);
  }
}
