/** The query-string parsers read back what a form sends. */
module QueryRoundTrip {
  import opened Bytes
  import opened QueryString

  /** Characters that a form cannot send as they are. */
  predicate IsReserved(c: char) {
    c == '&' || c == ';' || c == '=' || c == '+' || c == '%' || c == ' ' || c == NUL
  }

  function HexDigit(d: nat): (c: char)
    requires d < 16
    ensures IsHex(c) && HexValue(c) == d
  {
    if d < 10 then '0' + d as char else 'A' + (d - 10) as char
  }

  predicate IsByteString(s: string) {
    forall i :: 0 <= i < |s| ==> s[i] as int < 256
  }

  /** One byte as section 17.13.4.1 of HTML 4.01 has it sent; `safe` tells which bytes besides
      the reserved ones are sent as they are. */
  function EncodeByte(safe: char -> bool, c: char): string
    requires c as int < 256
  {
    if c == ' ' then "+"
    else if safe(c) && !IsReserved(c) then [c]
    else ['%', HexDigit(c as int / 16), HexDigit(c as int % 16)]
  }

  function Encode(safe: char -> bool, s: string): string
    requires IsByteString(s)
  {
    if s == "" then "" else EncodeByte(safe, s[0]) + Encode(safe, s[1..])
  }

  predicate IsField(p: Pair) {
    IsByteString(p.0) && IsByteString(p.1) && NUL !in p.0 && NUL !in p.1
  }

  predicate AreFields(pairs: seq<Pair>) {
    forall i :: 0 <= i < |pairs| ==> IsField(pairs[i])
  }

  function EncodePair(safe: char -> bool, p: Pair): string
    requires IsField(p)
  {
    Encode(safe, p.0) + "=" + Encode(safe, p.1)
  }

  function EncodeForm(safe: char -> bool, pairs: seq<Pair>): string
    requires AreFields(pairs)
  {
    if pairs == [] then ""
    else if |pairs| == 1 then EncodePair(safe, pairs[0])
    else EncodePair(safe, pairs[0]) + "&" + EncodeForm(safe, pairs[1..])
  }

  /** Nothing in an encoded name or value ends it. */
  predicate IsClean(s: string) {
    forall i :: 0 <= i < |s| ==> !IsSeparator(s[i]) && s[i] != '=' && s[i] != NUL
  }

  lemma EncodeIsClean(safe: char -> bool, s: string)
    requires IsByteString(s)
    ensures IsClean(Encode(safe, s))
  {
    if s != "" {
      EncodeIsClean(safe, s[1..]);
      assert IsClean(EncodeByte(safe, s[0]));
    }
  }

  lemma EncodeNotEmpty(safe: char -> bool, s: string)
    requires IsByteString(s)
    ensures Encode(safe, s) == "" <==> s == ""
  {
  }

  lemma PlusConcat(a: string, b: string)
    ensures Plus(a + b) == Plus(a) + Plus(b)
  {
  }

  lemma UnescapeByte(safe: char -> bool, c: char, rest: string)
    requires c as int < 256
    ensures UnescapeUrl(Plus(EncodeByte(safe, c)) + rest) == [c] + UnescapeUrl(rest)
  {
    var e := EncodeByte(safe, c);
    var u := Plus(e) + rest;
    if c == ' ' || (safe(c) && !IsReserved(c)) {
      assert u[0] == c && u[1..] == rest;
    } else {
      var h, l := HexDigit(c as int / 16), HexDigit(c as int % 16);
      assert u[0] == '%' && u[1] == h && u[2] == l && u[3..] == rest;
    }
  }

  lemma {:induction false} UnescapeEncoded(safe: char -> bool, s: string)
    requires IsByteString(s)
    ensures UnescapeUrl(Plus(Encode(safe, s))) == s
  {
    if s == "" {
    } else {
      PlusConcat(EncodeByte(safe, s[0]), Encode(safe, s[1..]));
      UnescapeByte(safe, s[0], Plus(Encode(safe, s[1..])));
      UnescapeEncoded(safe, s[1..]);
    }
  }

  lemma CookedEncoded(safe: char -> bool, s: string)
    requires IsByteString(s) && NUL !in s
    ensures Cooked(Plus(Encode(safe, s))) == s
  {
    UnescapeEncoded(safe, s);
    NulFree(s);
  }

  lemma PairEncoded(safe: char -> bool, p: Pair, keepBlank: bool)
    requires IsField(p)
    ensures PairOf(Plus(EncodePair(safe, p)), keepBlank) == if keepBlank || p.1 != "" then [p] else []
  {
    hide Encode, Cooked, Plus;
    var k, v := Encode(safe, p.0), Encode(safe, p.1);
    PlusConcat(k + "=", v);
    PlusConcat(k, "=");
    EncodeIsClean(safe, p.0);
    EncodeNotEmpty(safe, p.1);
    var piece := Plus(k) + ['='] + Plus(v);
    assert Plus("=") == "=";
    assert Plus(EncodePair(safe, p)) == piece;
    IndexOfIs(piece, '=', |k|);
    assert piece[..|k|] == Plus(k) && piece[|k| + 1..] == Plus(v);
    CookedEncoded(safe, p.0);
    CookedEncoded(safe, p.1);
  }

  lemma PairHasNoSeparator(safe: char -> bool, p: Pair)
    requires IsField(p)
    ensures EncodePair(safe, p) != ""
    ensures forall i :: 0 <= i < |EncodePair(safe, p)| ==>
              !IsSeparator(EncodePair(safe, p)[i]) && EncodePair(safe, p)[i] != NUL
  {
    EncodeIsClean(safe, p.0);
    EncodeIsClean(safe, p.1);
    hide Encode;
  }

  lemma FormHasNoNul(safe: char -> bool, pairs: seq<Pair>)
    requires AreFields(pairs)
    ensures NUL !in EncodeForm(safe, pairs)
  {
    hide EncodePair;
    if pairs != [] {
      PairHasNoSeparator(safe, pairs[0]);
      if |pairs| > 1 {
        FormHasNoNul(safe, pairs[1..]);
      }
    }
  }

  /** The pairs that are kept. */
  function Kept(pairs: seq<Pair>, keepBlank: bool): seq<Pair> {
    if pairs == [] then []
    else (if keepBlank || pairs[0].1 != "" then [pairs[0]] else []) + Kept(pairs[1..], keepBlank)
  }

  lemma PiecesOfPair(e: string, rest: string, keepBlank: bool)
    requires e != "" && forall i :: 0 <= i < |e| ==> !IsSeparator(e[i])
    ensures PairsOf(Pieces(e + "&" + rest), keepBlank) == PairOf(Plus(e), keepBlank) + PairsOf(Pieces(rest), keepBlank)
  {
    hide Plus, PairOf;
    var s := e + "&" + rest;
    NextSeparatorIs(s, |e|);
    PiecesStep(s, |e|);
    hide Pieces;
    assert s[..|e|] == e && Rest(s, |e| + 1) == rest;
    assert ([Plus(e)] + Pieces(rest))[1..] == Pieces(rest);
  }

  lemma PiecesOfLast(e: string, keepBlank: bool)
    requires e != "" && forall i :: 0 <= i < |e| ==> !IsSeparator(e[i])
    ensures PairsOf(Pieces(e), keepBlank) == PairOf(Plus(e), keepBlank)
  {
    NextSeparatorIs(e, |e|);
    PiecesStep(e, |e|);
    assert Rest(e, |e| + 1) == "" && e[..|e|] == e;
    NoPieces(keepBlank);
    hide Plus, PairOf, Pieces;
    assert [Plus(e)] + [] == [Plus(e)];
    assert PairsOf([Plus(e)], keepBlank) == PairOf(Plus(e), keepBlank) + [];
  }

  lemma {:induction false} PiecesOfForm(safe: char -> bool, pairs: seq<Pair>, keepBlank: bool)
    requires AreFields(pairs)
    ensures PairsOf(Pieces(EncodeForm(safe, pairs)), keepBlank) == Kept(pairs, keepBlank)
  {
    hide Pieces, PairsOf, PairOf, EncodePair, Plus;
    if pairs == [] {
      NoPieces(keepBlank);
    } else {
      var e := EncodePair(safe, pairs[0]);
      PairHasNoSeparator(safe, pairs[0]);
      PairEncoded(safe, pairs[0], keepBlank);
      if |pairs| == 1 {
        PiecesOfLast(e, keepBlank);
      } else {
        PiecesOfForm(safe, pairs[1..], keepBlank);
        PiecesOfPair(e, EncodeForm(safe, pairs[1..]), keepBlank);
      }
    }
  }

  /** Whatever bytes the sender escapes besides the reserved ones, the pairs that it sent are read
      in their order: all of them, or those whose values are not blank. */
  lemma FormReadsBack(safe: char -> bool, pairs: seq<Pair>, keepBlank: bool)
    requires AreFields(pairs)
    ensures Pairs(EncodeForm(safe, pairs), keepBlank) == Kept(pairs, keepBlank)
    ensures Pairs(EncodeForm(safe, pairs), true) == pairs
  {
    hide Pieces, PairsOf, EncodeForm;
    FormHasNoNul(safe, pairs);
    NulFree(EncodeForm(safe, pairs));
    PiecesOfForm(safe, pairs, keepBlank);
    PiecesOfForm(safe, pairs, true);
    KeptAll(pairs);
  }

  lemma KeptAll(pairs: seq<Pair>)
    ensures Kept(pairs, true) == pairs
  {
  }

  lemma EscapedNul()
    ensures Cooked("%00") == "" && Cooked("a") == "a"
  {
    var v, w := "%00", "a";
    assert v[3..] == "" && UnescapeUrl(v) == [NUL] + UnescapeUrl("");
    IndexOfIs([NUL], NUL, 0);
    assert w[1..] == "" && UnescapeUrl(w) == w + UnescapeUrl("");
    IndexOfIs(w, NUL, 1);
  }

  predicate HasBlank(pairs: seq<Pair>) {
    exists i :: 0 <= i < |pairs| && pairs[i].1 == ""
  }

  predicate HasNulFirst(pieces: seq<string>) {
    exists i :: 0 <= i < |pieces| && "%00" <= ValueOf(pieces[i])
  }

  /** A value becomes blank when its escapes are replaced if and only if it begins with an escaped
      NUL. */
  lemma BecomesBlankIff(v: string)
    requires NUL !in v
    ensures v != "" && Cooked(v) == "" <==> "%00" <= v
  {
    if v != "" {
      var u := UnescapeUrl(v);
      assert Cooked(v) == "" <==> IndexOf(u, NUL) == 0;
      assert IndexOf(u, NUL) == 0 <==> u[0] == NUL;
      assert v[0] in v;
    }
  }

  lemma NulFreePieces(s: string)
    requires NUL !in s
    ensures forall i :: 0 <= i < |Pieces(s)| ==> NUL !in Pieces(s)[i]
    decreases |s|
  {
    if s != "" {
      NulFreePieces(Rest(s, NextSeparator(s) + 1));
    }
  }

  lemma HasEither(a: seq<Pair>, b: seq<Pair>)
    ensures HasBlank(a + b) <==> HasBlank(a) || HasBlank(b)
  {
    var s := a + b;
    if HasBlank(a) {
      var i :| 0 <= i < |a| && a[i].1 == "";
      assert s[i].1 == "";
    }
    if HasBlank(b) {
      var i :| 0 <= i < |b| && b[i].1 == "";
      assert s[|a| + i].1 == "";
    }
  }

  lemma HasFirstOrLater(pieces: seq<string>)
    requires pieces != []
    ensures HasNulFirst(pieces) <==> "%00" <= ValueOf(pieces[0]) || HasNulFirst(pieces[1..])
  {
    if HasNulFirst(pieces[1..]) {
      var i :| 0 <= i < |pieces| - 1 && "%00" <= ValueOf(pieces[1..][i]);
      assert "%00" <= ValueOf(pieces[i + 1]);
    }
    if HasNulFirst(pieces) {
      var i :| 0 <= i < |pieces| && "%00" <= ValueOf(pieces[i]);
      assert i > 0 ==> pieces[1..][i - 1] == pieces[i];
    }
  }

  lemma BlankOfPiece(piece: string)
    requires NUL !in piece
    ensures HasBlank(PairOf(piece, false)) <==> "%00" <= ValueOf(piece)
  {
    var v := ValueOf(piece);
    assert forall k :: 0 <= k < |v| ==> v[k] == piece[|piece| - |v| + k];
    BecomesBlankIff(v);
    hide Cooked, KeyOf, ValueOf;
    assert v != "" ==> PairOf(piece, false)[0].1 == Cooked(v);
  }

  lemma {:induction false} BlankOfPieces(pieces: seq<string>)
    requires forall i :: 0 <= i < |pieces| ==> NUL !in pieces[i]
    ensures HasBlank(PairsOf(pieces, false)) <==> HasNulFirst(pieces)
  {
    if pieces == [] {
    } else {
      hide PairOf, ValueOf, HasBlank, HasNulFirst;
      BlankOfPieces(pieces[1..]);
      BlankOfPiece(pieces[0]);
      HasFirstOrLater(pieces);
      HasEither(PairOf(pieces[0], false), PairsOf(pieces[1..], false));
    }
  }

  /** When blank values are not kept, a pair with a blank value is read all the same if and only if
      some value in the query begins with an escaped NUL: the test for blanks comes before the
      escapes are replaced. */
  lemma BlankIsKeptIff(query: string)
    ensures HasBlank(Pairs(query, false)) <==> HasNulFirst(Pieces(CString(query)))
  {
    NulFree(query);
    NulFreePieces(CString(query));
    BlankOfPieces(Pieces(CString(query)));
  }

  /** A value that is not blank when sent can be blank when read, and is kept. */
  lemma EscapedNulIsKept()
    ensures Pairs("a=%00", false) == [("a", "")]
  {
    hide Cooked, UnescapeUrl;
    var s := "a=%00";
    NulFree(s);
    PiecesOfLast(s, false);
    assert Plus(s) == s;
    IndexOfIs(s, '=', 1);
    assert s[..1] == "a" && s[2..] == "%00";
    EscapedNul();
  }
}
