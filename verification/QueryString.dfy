/** The query-string parsers (src/_apachemodule.c). */
module QueryString {
  import opened Bytes
  import opened Text

  const NUL: char := 0 as char

  type Pair = (string, string)

  predicate IsHex(c: char) {
    '0' <= c <= '9' || 'A' <= c <= 'F' || 'a' <= c <= 'f'
  }

  function HexValue(c: char): (d: nat)
    requires IsHex(c)
    ensures d < 16
  {
    if c <= '9' then (c - '0') as nat
    else if c <= 'F' then (c - 'A') as nat + 10
    else (c - 'a') as nat + 10
  }

  /** A C string: what comes before the first NUL. */
  function CString(s: string): string {
    s[..IndexOf(s, NUL)]
  }

  /** What Apache's `ap_unescape_url` leaves in its buffer: each percent sign before two
      hexadecimal digits is replaced with them by one character. */
  function UnescapeUrl(s: string): string
    decreases |s|
  {
    if s == "" then ""
    else if s[0] == '%' && |s| > 2 && IsHex(s[1]) && IsHex(s[2]) then
      [(16 * HexValue(s[1]) + HexValue(s[2])) as char] + UnescapeUrl(s[3..])
    else [s[0]] + UnescapeUrl(s[1..])
  }

  function Cooked(s: string): string {
    CString(UnescapeUrl(s))
  }

  predicate IsSeparator(c: char) {
    c == '&' || c == ';'
  }

  /** The index of the first separator in `s`, or the length of `s`. */
  function NextSeparator(s: string): (i: nat)
    ensures i <= |s| && (forall k :: 0 <= k < i ==> !IsSeparator(s[k]))
    ensures i < |s| ==> IsSeparator(s[i])
  {
    if s == "" || IsSeparator(s[0]) then 0 else 1 + NextSeparator(s[1..])
  }

  function PlusChar(c: char): char {
    if c == '+' then ' ' else c
  }

  function Plus(s: string): (r: string)
    ensures |r| == |s| && forall i :: 0 <= i < |s| ==> r[i] == PlusChar(s[i])
  {
    seq(|s|, i requires 0 <= i < |s| => PlusChar(s[i]))
  }

  function Rest(s: string, i: nat): (r: string)
    ensures |r| == if i <= |s| then |s| - i else 0
  {
    if i <= |s| then s[i..] else ""
  }

  /** The nonempty pieces between separators, with spaces for plus signs. */
  function Pieces(s: string): seq<string>
    decreases |s|
  {
    if s == "" then []
    else
      var i := NextSeparator(s);
      (if i == 0 then [] else [Plus(s[..i])]) + Pieces(Rest(s, i + 1))
  }

  function KeyOf(piece: string): string {
    piece[..IndexOf(piece, '=')]
  }

  function ValueOf(piece: string): string {
    var i := IndexOf(piece, '=');
    if i < |piece| then piece[i + 1..] else ""
  }

  /** The pair that a piece stands for, unless its value is blank and these are not kept. */
  function PairOf(piece: string, keepBlank: bool): seq<Pair> {
    if keepBlank || ValueOf(piece) != "" then [(Cooked(KeyOf(piece)), Cooked(ValueOf(piece)))] else []
  }

  function PairsOf(pieces: seq<string>, keepBlank: bool): seq<Pair> {
    if pieces == [] then [] else PairOf(pieces[0], keepBlank) + PairsOf(pieces[1..], keepBlank)
  }

  /** The pairs of a query string. */
  function Pairs(qs: string, keepBlank: bool): seq<Pair> {
    PairsOf(Pieces(CString(qs)), keepBlank)
  }

  lemma {:induction false} PairsOfConcat(a: seq<string>, b: seq<string>, keepBlank: bool)
    ensures PairsOf(a + b, keepBlank) == PairsOf(a, keepBlank) + PairsOf(b, keepBlank)
  {
    hide PairOf;
    if a == [] {
      assert a + b == b;
    } else {
      assert (a + b)[1..] == a[1..] + b;
      PairsOfConcat(a[1..], b, keepBlank);
      AppendAssoc(PairOf(a[0], keepBlank), PairsOf(a[1..], keepBlank), PairsOf(b, keepBlank));
    }
  }

  lemma NulFree(s: string)
    ensures NUL !in CString(s)
    ensures NUL !in s ==> CString(s) == s
  {
    if NUL !in s {
      assert forall k :: 0 <= k < |s| ==> s[k] in s;
    }
  }

  /** Copies a piece from `start` on into a buffer; `i` is where its separator is, or the end. */
  method CopyPiece(qs: string, start: nat) returns (piece: string, i: nat)
    requires start < |qs|
    ensures i == start + NextSeparator(qs[start..])
    ensures piece == Plus(qs[start..i])
  {
    var cpair := new char[|qs|];
    var j := 0;
    i := start;
    while i < |qs| && qs[i] != '&' && qs[i] != ';'
      invariant start <= i <= |qs| && j == i - start
      invariant forall k :: 0 <= k < j ==> cpair[k] == PlusChar(qs[start + k])
      invariant forall k :: start <= k < i ==> !IsSeparator(qs[k])
    {
      cpair[j] := if qs[i] == '+' then ' ' else qs[i];
      i := i + 1;
      j := j + 1;
    }
    piece := cpair[..j];
    NextSeparatorIs(qs[start..], j);
    assert qs[start..i] == qs[start..][..j];
  }

  lemma NextSeparatorIs(s: string, i: nat)
    requires i <= |s| && (forall k :: 0 <= k < i ==> !IsSeparator(s[k]))
    requires i < |s| ==> IsSeparator(s[i])
    ensures NextSeparator(s) == i
  {
  }

  /** Copies what comes before and after the first equals sign into two buffers. */
  method SplitPiece(piece: string) returns (key: string, value: string)
    ensures key == KeyOf(piece) && value == ValueOf(piece)
  {
    var ckey, cval := new char[|piece|], new char[|piece|];
    var p, k, v := 0, 0, 0;
    while p < |piece|
      invariant p <= |piece| && k <= p && v <= p
      invariant forall x :: 0 <= x < k ==> ckey[x] == piece[x] && piece[x] != '='
      invariant (k == p && v == 0)
                || (k < p == |piece| && piece[k] == '=' && v == p - k - 1)
      invariant forall x :: 0 <= x < v ==> cval[x] == piece[k + 1 + x]
    {
      if piece[p] != '=' {
        ckey[k] := piece[p];
        k := k + 1;
        p := p + 1;
      } else {
        p := p + 1;
        while p < |piece|
          invariant k < p <= |piece| && v == p - k - 1
          invariant forall x :: 0 <= x < k ==> ckey[x] == piece[x] && piece[x] != '='
          invariant forall x :: 0 <= x < v ==> cval[x] == piece[k + 1 + x]
        {
          cval[v] := piece[p];
          v := v + 1;
          p := p + 1;
        }
      }
    }
    IndexOfIs(piece, '=', k);
    key := ckey[..k];
    value := cval[..v];
    assert key == piece[..k];
    if k < |piece| {
      assert value == piece[k + 1..];
    }
  }

  lemma PiecesStep(s: string, k: nat)
    requires s != "" && k == NextSeparator(s)
    ensures Pieces(s) == (if k == 0 then [] else [Plus(s[..k])]) + Pieces(Rest(s, k + 1))
  {
    hide NextSeparator, Plus, Rest;
    if k == 0 {
    } else {
    }
  }

  lemma RestRest(qs: string, i: nat, k: nat)
    requires i < |qs| && i + k <= |qs|
    ensures qs[i..][..k] == qs[i..i + k]
    ensures Rest(qs[i..], k + 1) == Rest(qs, i + k + 1)
  {
  }

  lemma RestStep(qs: string, i: nat, next: nat)
    requires i < |qs| && next == i + NextSeparator(qs[i..])
    ensures Pieces(Rest(qs, i)) == (if next == i then [] else [Plus(qs[i..next])]) + Pieces(Rest(qs, next + 1))
  {
    hide NextSeparator, Plus, Pieces;
    PiecesStep(qs[i..], next - i);
    RestRest(qs, i, next - i);
  }

  lemma PairsStep(done: seq<Pair>, piece: string, pieces: seq<string>, keepBlank: bool)
    ensures done + PairsOf([piece] + pieces, keepBlank) ==
            (done + PairOf(piece, keepBlank)) + PairsOf(pieces, keepBlank)
  {
    assert ([piece] + pieces)[1..] == pieces;
  }

  /** `parse_qsl`. */
  method ParseQsl(query: string, keepBlank: bool) returns (pairs: seq<Pair>)
    ensures pairs == Pairs(query, keepBlank)
  {
    hide Pieces, PairsOf, KeyOf, ValueOf, Cooked;
    var qs := CString(query);
    pairs := [];
    var i := 0;
    assert Rest(qs, 0) == qs;
    while i < |qs|
      invariant pairs + PairsOf(Pieces(Rest(qs, i)), keepBlank) == Pairs(query, keepBlank)
    {
      var piece, next := CopyPiece(qs, i);
      RestStep(qs, i, next);
      if piece == "" {
        assert [] + Pieces(Rest(qs, next + 1)) == Pieces(Rest(qs, next + 1));
        i := next + 1;
        continue;
      }
      PairsStep(pairs, piece, Pieces(Rest(qs, next + 1)), keepBlank);
      var key, value := SplitPiece(piece);
      if keepBlank || value != "" {
        pairs := pairs + [(Cooked(key), Cooked(value))];
      } else {
        assert pairs + [] == pairs;
      }
      i := next + 1;
    }
    assert Rest(qs, i) == "";
    NoPieces(keepBlank);
    assert pairs + [] == pairs;
  }

  lemma NoPieces(keepBlank: bool)
    ensures Pieces("") == [] && PairsOf([], keepBlank) == []
  {
  }

  /** The values of `key`, in order. */
  function ValuesFor(pairs: seq<Pair>, key: string): seq<string> {
    if pairs == [] then []
    else
      var last := pairs[|pairs| - 1];
      ValuesFor(pairs[..|pairs| - 1], key) + if last.0 == key then [last.1] else []
  }

  /** `dict` has the keys of the pairs, each with its values in their order. */
  ghost predicate IsGrouping(dict: map<string, seq<string>>, pairs: seq<Pair>) {
    && (forall key :: key in dict <==> ValuesFor(pairs, key) != [])
    && (forall key :: key in dict ==> dict[key] == ValuesFor(pairs, key))
  }

  lemma GroupingIsUnique(d: map<string, seq<string>>, e: map<string, seq<string>>, pairs: seq<Pair>)
    requires IsGrouping(d, pairs) && IsGrouping(e, pairs)
    ensures d == e
  {
    assert forall key :: key in d <==> key in e;
  }

  /** Which of the first `n` pairs have this key. */
  function WithKey(pairs: seq<Pair>, key: string, n: nat): set<nat>
    requires n <= |pairs|
  {
    set j: nat | j < n && pairs[j].0 == key
  }

  lemma {:induction false} ValuesCount(pairs: seq<Pair>, key: string, n: nat)
    requires n <= |pairs|
    ensures |ValuesFor(pairs[..n], key)| == |WithKey(pairs, key, n)|
  {
    if n == 0 {
      assert WithKey(pairs, key, 0) == {};
    } else {
      ValuesCount(pairs, key, n - 1);
      assert pairs[..n][..n - 1] == pairs[..n - 1];
      assert WithKey(pairs, key, n) == WithKey(pairs, key, n - 1) + if pairs[n - 1].0 == key then {n - 1} else {};
    }
  }

  lemma {:induction false} ValueAt(pairs: seq<Pair>, i: nat, n: nat)
    requires i < n <= |pairs|
    ensures var values := ValuesFor(pairs[..n], pairs[i].0);
            var k := |WithKey(pairs, pairs[i].0, i)|;
            k < |values| && values[k] == pairs[i].1
    decreases n
  {
    assert pairs[..n][..n - 1] == pairs[..n - 1];
    if i == n - 1 {
      ValuesCount(pairs, pairs[i].0, i);
    } else {
      hide WithKey;
      ValueAt(pairs, i, n - 1);
    }
  }

  /** The dictionary has every pair's value under its key, at the place that is the number of pairs with
      that key before it, and nothing else. */
  lemma GroupingIsInOrder(dict: map<string, seq<string>>, pairs: seq<Pair>)
    requires IsGrouping(dict, pairs)
    ensures forall i :: 0 <= i < |pairs| ==>
              && pairs[i].0 in dict && |WithKey(pairs, pairs[i].0, i)| < |dict[pairs[i].0]|
              && dict[pairs[i].0][|WithKey(pairs, pairs[i].0, i)|] == pairs[i].1
    ensures forall key :: key in dict ==> |dict[key]| == |WithKey(pairs, key, |pairs|)| > 0
  {
    hide ValuesFor, WithKey;
    assert pairs[..|pairs|] == pairs;
    forall i | 0 <= i < |pairs|
      ensures var values := ValuesFor(pairs, pairs[i].0);
              |WithKey(pairs, pairs[i].0, i)| < |values| && values[|WithKey(pairs, pairs[i].0, i)|] == pairs[i].1
    {
      ValueAt(pairs, i, |pairs|);
    }
    forall key | key in dict
      ensures |dict[key]| == |WithKey(pairs, key, |pairs|)|
    {
      ValuesCount(pairs, key, |pairs|);
    }
  }

  lemma GroupOne(pairs: seq<Pair>, p: Pair, dict: map<string, seq<string>>)
    requires IsGrouping(dict, pairs)
    ensures IsGrouping(dict[p.0 := (if p.0 in dict then dict[p.0] else []) + [p.1]], pairs + [p])
  {
    assert (pairs + [p])[..|pairs|] == pairs;
  }

  lemma GroupPiece(pieces: seq<string>, n: nat, keepBlank: bool)
    requires n < |pieces|
    ensures PairsOf(pieces[..n + 1], keepBlank) == PairsOf(pieces[..n], keepBlank) + PairOf(pieces[n], keepBlank)
  {
    assert pieces[..n + 1] == pieces[..n] + [pieces[n]];
    PairsOfConcat(pieces[..n], [pieces[n]], keepBlank);
    assert PairsOf([pieces[n]], keepBlank) == PairOf(pieces[n], keepBlank) + [];
  }

  /** `parse_qs`: the pairs of the query string, grouped by key. */
  method ParseQs(query: string, keepBlank: bool) returns (dict: map<string, seq<string>>)
    ensures IsGrouping(dict, Pairs(query, keepBlank))
  {
    hide Pieces, PairsOf, KeyOf, ValueOf, Cooked, IsGrouping;
    var qs := CString(query);
    var pieces: seq<string> := [];
    var i := 0;
    assert Rest(qs, 0) == qs;
    while i < |qs|
      invariant pieces + Pieces(Rest(qs, i)) == Pieces(qs)
    {
      var piece, next := CopyPiece(qs, i);
      RestStep(qs, i, next);
      if piece != "" {
        assert pieces + ([piece] + Pieces(Rest(qs, next + 1))) == pieces + [piece] + Pieces(Rest(qs, next + 1));
        pieces := pieces + [piece];
      }
      i := next + 1;
    }
    assert Rest(qs, i) == "";
    NoPieces(keepBlank);
    assert pieces + [] == pieces;

    dict := map[];
    NothingToGroup();
    var n := 0;
    while n < |pieces|
      invariant n <= |pieces|
      invariant IsGrouping(dict, PairsOf(pieces[..n], keepBlank))
    {
      GroupPiece(pieces, n, keepBlank);
      var key, value := SplitPiece(pieces[n]);
      if keepBlank || value != "" {
        var k, v := Cooked(key), Cooked(value);
        GroupOne(PairsOf(pieces[..n], keepBlank), (k, v), dict);
        dict := dict[k := (if k in dict then dict[k] else []) + [v]];
      } else {
        assert PairsOf(pieces[..n], keepBlank) + [] == PairsOf(pieces[..n], keepBlank);
      }
      n := n + 1;
    }
    assert pieces[..n] == pieces;
  }

  lemma NothingToGroup()
    ensures IsGrouping(map[], [])
  {
  }
}
