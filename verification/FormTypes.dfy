/** What a form's field says of its content: the type, the type's options and the headers (section 4
    of RFC 7578, section 5.1 of RFC 2045). */
module FormTypes {
  import opened Bytes
  import opened FormParser
  import opened FormRoundTrip
  import opened Optional
  import opened Text

  /** An option of a content type, with the blanks before and after its name and its value; the
      value may be written in quotes. */
  datatype Param = Param(before: string, key: string, after: string,
                         left: string, value: string, quoted: bool, right: string)

  /** The value of a Content-Type header. */
  datatype TypeHeader = TypeHeader(left: string, kind: string, right: string, params: seq<Param>)

  function ValueText(p: Param): string {
    if p.quoted then "\"" + p.value + "\"" else p.value
  }

  function ParamText(p: Param): string {
    p.before + p.key + p.after + ['='] + (p.left + ValueText(p) + p.right)
  }

  function ParamsText(params: seq<Param>): string {
    if params == [] then "" else [';'] + ParamText(params[0]) + ParamsText(params[1..])
  }

  function TypeText(t: TypeHeader): string {
    t.left + t.kind + t.right + ParamsText(t.params)
  }

  predicate IsParam(p: Param) {
    && IsBlanks(p.before) && IsBlanks(p.after) && IsBlanks(p.left) && IsBlanks(p.right)
    && p.key != "" && IsTrimmed(p.key) && '=' !in p.key && ';' !in p.key
    && ';' !in p.value
    && (!p.quoted ==>
          IsTrimmed(p.value) && !(|p.value| > 1 && p.value[0] == '"' && p.value[|p.value| - 1] == '"'))
  }

  predicate IsTypeHeader(t: TypeHeader) {
    && IsBlanks(t.left) && IsBlanks(t.right) && IsTrimmed(t.kind) && ';' !in t.kind
    && forall i :: 0 <= i < |t.params| ==> IsParam(t.params[i])
  }

  /** No later option has the same name but for the case. */
  predicate IsLast(params: seq<Param>, i: nat)
    requires i < |params|
  {
    forall j :: i < j < |params| ==> Lower(params[j].key) != Lower(params[i].key)
  }

  predicate IsNamed(params: seq<Param>, key: string) {
    exists i :: 0 <= i < |params| && Lower(params[i].key) == key
  }

  /** `m` has the options' values by their names in lower case, the last one of each name. */
  predicate HoldsParams(m: Options, params: seq<Param>) {
    && (forall k :: k in m ==> IsNamed(params, k))
    && (forall i :: 0 <= i < |params| && IsLast(params, i) ==>
          Lower(params[i].key) in m && m[Lower(params[i].key)] == params[i].value)
  }

  /** A written value, stripped and without its quotes. */
  lemma ValueReadsBack(p: Param, right: string)
    requires IsParam(p) && IsBlanks(right)
    ensures Unquoted(Strip(p.left + ValueText(p) + right)) == p.value
    ensures IsTrimmed(ValueText(p))
  {
    hide Strip;
    StripTrimmed(p.left, ValueText(p), right);
    if p.quoted {
      assert ValueText(p)[1..|ValueText(p)| - 1] == p.value;
    }
  }

  /** An option as the parser sees it after stripping: the blanks after it are gone, and those before
      an empty value. */
  lemma ParamStrips(p: Param, right: string) returns (x: string)
    requires IsParam(p) && IsBlanks(right)
    ensures Strip(p.before + p.key + p.after + ['='] + (p.left + ValueText(p) + right)) == p.key + p.after + ['='] + x
    ensures Strip(x) == Strip(p.left + ValueText(p) + right)
  {
    hide Strip;
    ValueReadsBack(p, right);
    var v := ValueText(p);
    hide ValueText;
    var front := p.key + p.after + ['='];
    if v == "" {
      x := "";
      assert p.before + p.key + p.after + ['='] + (p.left + v + right) == p.before + front + (p.left + right);
      BlanksConcat(p.left, right);
      StripTrimmed(p.before, front, p.left + right);
      StripTrimmed(p.left, "", right);
      StripBlanks("");
      assert front + "" == front;
    } else {
      x := p.left + v;
      var core := front + x;
      assert p.before + p.key + p.after + ['='] + (p.left + v + right) == p.before + core + right;
      assert core[0] == p.key[0] && core[|core| - 1] == v[|v| - 1];
      StripTrimmed(p.before, core, right);
      StripTrimmed(p.left, v, "");
      StripTrimmed(p.left, v, right);
      assert p.left + v + "" == p.left + v;
    }
  }

  /** An option is read back, with whatever blanks and in quotes or without. */
  lemma ParamReadsBack(options: Options, p: Param, right: string)
    requires IsParam(p) && IsBlanks(right)
    ensures AddOption(options, Strip(p.before + p.key + p.after + ['='] + (p.left + ValueText(p) + right)))
            == options[Lower(p.key) := p.value]
  {
    hide Strip, Lower, Unquoted;
    var x := ParamStrips(p, right);
    ValueReadsBack(p, right);
    hide ValueText;
    var key := p.key + p.after;
    BlankIsNot(p.after, '=');
    IndexOfConcat(key, '=', x);
    var core := key + ['='] + x;
    assert core[..|key|] == key && core[|key| + 1..] == x;
    StripTrimmed("", p.key, p.after);
    assert "" + p.key + p.after == key;
  }

  lemma HoldsNone()
    ensures HoldsParams(map[], [])
  {
  }

  lemma NamedNext(params: seq<Param>, p: Param, key: string)
    requires IsNamed(params, key) || key == Lower(p.key)
    ensures IsNamed(params + [p], key)
  {
    hide Lower;
    var all := params + [p];
    assert all[|params|] == p;
    if key != Lower(p.key) {
      var i :| 0 <= i < |params| && Lower(params[i].key) == key;
      assert all[i] == params[i];
    }
  }

  lemma LastBefore(params: seq<Param>, p: Param, i: nat)
    requires i < |params| && IsLast(params + [p], i)
    ensures IsLast(params, i) && Lower(params[i].key) != Lower(p.key)
  {
    hide Lower;
    var all := params + [p];
    assert all[|params|] == p && all[i] == params[i];
    assert forall j :: 0 <= j < |params| ==> all[j] == params[j];
  }

  lemma HoldsNext(m: Options, params: seq<Param>, p: Param)
    requires HoldsParams(m, params)
    ensures HoldsParams(m[Lower(p.key) := p.value], params + [p])
  {
    hide Lower, IsNamed, IsLast;
    var (all, m') := (params + [p], m[Lower(p.key) := p.value]);
    forall k | k in m' ensures IsNamed(all, k) {
      NamedNext(params, p, k);
    }
    forall i | 0 <= i < |all| && IsLast(all, i)
      ensures Lower(all[i].key) in m' && m'[Lower(all[i].key)] == all[i].value
    {
      if i < |params| {
        LastBefore(params, p, i);
      }
    }
  }

  /** A character that is in none of the parts of an option is not in its text. */
  lemma NotInParam(p: Param)
    requires IsParam(p)
    ensures ';' !in ParamText(p)
  {
    BlankIsNot(p.before, ';');
    BlankIsNot(p.after, ';');
    BlankIsNot(p.left, ';');
    BlankIsNot(p.right, ';');
  }

  /** The options after the first `done` ones. */
  lemma {:induction false} ParamsReadBack(m: Options, done: seq<Param>, params: seq<Param>, end: string)
    requires HoldsParams(m, done) && params != [] && IsBlanks(end)
    requires forall i :: 0 <= i < |params| ==> IsParam(params[i])
    ensures HoldsParams(AddOptions(m, Split(ParamText(params[0]) + ParamsText(params[1..]) + end, ';')), done + params)
    decreases |params|
  {
    hide HoldsParams, AddOption, IsParam, Strip, ParamText;
    var p := params[0];
    var m' := m[Lower(p.key) := p.value];
    HoldsNext(m, done, p);
    NotInParam(p);
    if |params| == 1 {
      assert params == [p] && ParamsText(params[1..]) == "";
      BlankIsNot(end, ';');
      var piece := ParamText(p) + end;
      assert ParamText(p) + "" + end == piece;
      SplitWhole(piece, ';');
      LastParam(m, p, end);
      OneOption(m, piece);
    } else {
      var rest := ParamText(params[1]) + ParamsText(params[1..][1..]) + end;
      assert ParamText(p) + ParamsText(params[1..]) + end == ParamText(p) + [';'] + rest;
      SplitHead(ParamText(p), ';', rest);
      LastParam(m, p, "");
      assert ParamText(p) + "" == ParamText(p);
      assert (done + [p]) + params[1..] == done + params;
      ParamsReadBack(m', done + [p], params[1..], end);
      assert ([ParamText(p)] + Split(rest, ';'))[1..] == Split(rest, ';');
    }
  }

  lemma LastParam(m: Options, p: Param, end: string)
    requires IsParam(p) && IsBlanks(end)
    ensures AddOption(m, Strip(ParamText(p) + end)) == m[Lower(p.key) := p.value]
  {
    hide AddOption, Strip, Lower;
    BlanksConcat(p.right, end);
    ParamReadsBack(m, p, p.right + end);
    assert ParamText(p) + end == p.before + p.key + p.after + ['='] + (p.left + ValueText(p) + (p.right + end));
  }

  /** The value of a Content-Type header is read back, line break and all. */
  lemma TypeReadsBack(t: TypeHeader)
    requires IsTypeHeader(t)
    ensures HeaderValue(TypeText(t) + CRLF).0 == Lower(t.kind)
    ensures HoldsParams(HeaderValue(TypeText(t) + CRLF).1, t.params)
  {
    hide HoldsParams, AddOptions, IsParam, Strip, ParamText, Lower;
    var head := t.left + t.kind + t.right;
    BlankIsNot(t.left, ';');
    BlankIsNot(t.right, ';');
    assert ';' !in head;
    assert IsBlanks(CRLF);
    if t.params == [] {
      var piece := head + CRLF;
      assert TypeText(t) + CRLF == piece;
      SplitWhole(piece, ';');
      assert [piece][1..] == [];
      BlanksConcat(t.right, CRLF);
      assert piece == t.left + t.kind + (t.right + CRLF);
      StripTrimmed(t.left, t.kind, t.right + CRLF);
      HoldsNone();
      AddNothing();
    } else {
      var rest := ParamText(t.params[0]) + ParamsText(t.params[1..]) + CRLF;
      assert TypeText(t) + CRLF == head + [';'] + rest;
      SplitHead(head, ';', rest);
      StripTrimmed(t.left, t.kind, t.right);
      HoldsNone();
      ParamsReadBack(map[], [], t.params, CRLF);
      assert [] + t.params == t.params;
      assert ([head] + Split(rest, ';'))[1..] == Split(rest, ';');
    }
  }

  lemma AddNothing()
    ensures AddOptions(map[], []) == map[]
  {
  }

  predicate IsTypeLine(h: (string, string)) {
    Lower(h.0) == "content-type"
  }

  /** What one further header adds. */
  lemma HeaderAdds(part: Part, h: (string, string))
    requires ':' !in h.0 && Lower(h.0) != "content-disposition"
    ensures var part' := AddHeader(part, FurtherLine(h));
            && part'.headers == part.headers + [(h.0, h.1 + CRLF)]
            && (!IsTypeLine(h) ==> part'.ctype == part.ctype && part'.typeOptions == part.typeOptions)
            && (IsTypeLine(h) ==>
                  var (key, options) := HeaderValue(h.1 + CRLF);
                  && part'.ctype == (if '/' in key then key else "application/octet-stream")
                  && part'.typeOptions == options)
  {
    hide HeaderValue, Lower;
    IndexOfConcat(h.0, ':', h.1 + CRLF);
    assert FurtherLine(h)[..|h.0|] == h.0 && FurtherLine(h)[|h.0| + 1..] == h.1 + CRLF;
  }

  /** `all` are the headers `before`, then those of `more` in order. */
  predicate ListsHeaders(all: seq<(string, string)>, before: seq<(string, string)>, more: seq<(string, string)>) {
    && |all| == |before| + |more| && all[..|before|] == before
    && forall k :: 0 <= k < |more| ==> all[|before| + k] == (more[k].0, more[k].1 + CRLF)
  }

  lemma ListsNext(all: seq<(string, string)>, before: seq<(string, string)>, more: seq<(string, string)>)
    requires more != [] && ListsHeaders(all, before + [(more[0].0, more[0].1 + CRLF)], more[1..])
    ensures ListsHeaders(all, before, more)
  {
    var i := |before|;
    assert all[..i] == all[..i + 1][..i];
    assert all[i] == all[..i + 1][i];
    forall k | 0 < k < |more| ensures all[i + k] == (more[k].0, more[k].1 + CRLF) {
      assert more[k] == more[1..][k - 1];
    }
  }

  lemma {:induction false} HeadersAreListed(part: Part, more: seq<(string, string)>, b: string, n: nat)
    requires n > 0 && forall k :: 0 <= k < |more| ==> PlainHeader(more[k], b, n)
    ensures ListsHeaders(WithFurther(part, more).headers, part.headers, more)
    decreases |more|
  {
    hide AddHeader;
    if more != [] {
      assert PlainHeader(more[0], b, n);
      HeaderAdds(part, more[0]);
      hide PlainHeader, ListsHeaders;
      HeadersAreListed(AddHeader(part, FurtherLine(more[0])), more[1..], b, n);
      ListsNext(WithFurther(part, more).headers, part.headers, more);
    }
  }

  lemma {:induction false} TypeIsKept(part: Part, more: seq<(string, string)>, b: string, n: nat)
    requires n > 0 && forall k :: 0 <= k < |more| ==> PlainHeader(more[k], b, n) && !IsTypeLine(more[k])
    ensures WithFurther(part, more).ctype == part.ctype && WithFurther(part, more).typeOptions == part.typeOptions
    decreases |more|
  {
    hide AddHeader, IsTypeLine;
    if more != [] {
      assert PlainHeader(more[0], b, n);
      HeaderAdds(part, more[0]);
      hide PlainHeader;
      TypeIsKept(AddHeader(part, FurtherLine(more[0])), more[1..], b, n);
    }
  }

  /** `k` is the last Content-Type line among the further headers, and is written as `t`. */
  predicate IsTyped(more: seq<(string, string)>, k: nat, t: TypeHeader) {
    && k < |more| && IsTypeLine(more[k]) && more[k].1 == TypeText(t) && IsTypeHeader(t)
    && forall j :: k < j < |more| ==> !IsTypeLine(more[j])
  }

  lemma {:induction false} TypeIsLast(part: Part, more: seq<(string, string)>, k: nat, t: TypeHeader, b: string, n: nat)
    requires n > 0 && forall j :: 0 <= j < |more| ==> PlainHeader(more[j], b, n)
    requires IsTyped(more, k, t)
    ensures var part' := WithFurther(part, more);
            && part'.ctype == (if '/' in t.kind then Lower(t.kind) else "application/octet-stream")
            && HoldsParams(part'.typeOptions, t.params)
    decreases |more|
  {
    hide AddHeader, HoldsParams, IsTypeLine, IsTypeHeader, Lower;
    assert PlainHeader(more[0], b, n);
    var part' := AddHeader(part, FurtherLine(more[0]));
    assert WithFurther(part, more) == WithFurther(part', more[1..]);
    hide WithFurther;
    if k == 0 {
      HeaderAdds(part, more[0]);
      TypeReadsBack(t);
      SlashIn(t.kind);
      hide PlainHeader;
      TypeIsKept(part', more[1..], b, n);
    } else {
      hide PlainHeader;
      assert more[1..][k - 1] == more[k];
      TypeIsLast(part', more[1..], k - 1, t, b, n);
    }
  }

  lemma SlashIn(s: string)
    ensures '/' in Lower(s) <==> '/' in s
  {
    if '/' in s {
      var i :| 0 <= i < |s| && s[i] == '/';
      assert Lower(s)[i] == '/';
    }
  }

  /** The further headers of an encoded form come back in order after its disposition, and a field has
      the type that its last Content-Type line names, in lower case, with that line's options, or is
      binary if this is no type, or plain text if there is no such line. */
  lemma TypesReadBack(es: seq<Entry>, n: nat, b: string, i: nat)
    requires LF !in b && |b| + 6 <= n && i < |es|
    requires forall j :: 0 <= j < |es| ==> Encodable(es[j], b, n)
    ensures |ReadForm(Encode("", es, b, ""), n, b).fields| == |es|
    ensures var (e, part) := (es[i], ReadForm(Encode("", es, b, ""), n, b).fields[i].part);
            && part.disp == Some("form-data")
            && ListsHeaders(part.headers, [("Content-Disposition", DispositionValue(e))], e.more)
            && ((forall k :: 0 <= k < |e.more| ==> !IsTypeLine(e.more[k])) ==>
                  part.ctype == "text/plain" && part.typeOptions == map[])
            && (forall k, t :: IsTyped(e.more, k, t) ==>
                  && part.ctype == (if '/' in t.kind then Lower(t.kind) else "application/octet-stream")
                  && HoldsParams(part.typeOptions, t.params))
  {
    var e := es[i];
    PartIs(es, n, b, i);
    assert Encodable(e, b, n);
    var start := Part(Some("form-data"), OptionsOf(e), "text/plain", map[], [(DISPOSITION, DispositionValue(e))]);
    hide Encode, ReadForm, ListsHeaders, HoldsParams, IsTyped, PlainHeader, DispositionValue, IsTypeLine, Lower;
    HeadersAreListed(start, e.more, b, n);
    FurtherKeepDisposition(start, e.more, b, n);
    if forall k :: 0 <= k < |e.more| ==> !IsTypeLine(e.more[k]) {
      TypeIsKept(start, e.more, b, n);
    }
    forall k, t | IsTyped(e.more, k, t)
      ensures var part := WithFurther(start, e.more);
              && part.ctype == (if '/' in t.kind then Lower(t.kind) else "application/octet-stream")
              && HoldsParams(part.typeOptions, t.params)
    {
      TypeIsLast(start, e.more, k, t, b, n);
    }
  }

  lemma PartIs(es: seq<Entry>, n: nat, b: string, i: nat)
    requires LF !in b && |b| + 6 <= n && i < |es|
    requires forall j :: 0 <= j < |es| ==> Encodable(es[j], b, n)
    ensures |ReadForm(Encode("", es, b, ""), n, b).fields| == |es|
    ensures ReadForm(Encode("", es, b, ""), n, b).fields[i].part ==
            WithFurther(Part(Some("form-data"), OptionsOf(es[i]), "text/plain", map[],
                             [(DISPOSITION, DispositionValue(es[i]))]), es[i].more)
  {
    hide Encodable, Encode, ReadParts, ReadForm, WithFurther;
    NoPreamble(es, n, b, "");
    NothingLeft(n, b);
    assert FieldsOf(es) + [] == FieldsOf(es);
  }
}
