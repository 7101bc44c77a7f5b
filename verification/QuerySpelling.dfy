/** The query-string parsers read every spelling of a query: escapes in upper or lower case, either
    separator, superfluous ones, and names without an equals sign. */
module QuerySpelling {
  import opened Bytes
  import opened QueryRoundTrip
  import opened QueryString

  const DIGITS: string := "0123456789ABCDEF"
  const LOWER_DIGITS: string := "0123456789abcdef"

  predicate IsDigit(c: char, d: nat) {
    d < 16 && (c == DIGITS[d] || c == LOWER_DIGITS[d])
  }

  /** The escape `%hl` stands for `c`. */
  predicate IsEscape(h: char, l: char, c: char) {
    IsDigit(h, c as int / 16) && IsDigit(l, c as int % 16)
  }

  /** `t` spells `s`: every character stands for itself if it may, or a plus sign for a space, or an
      escape for a byte. In a value an equals sign may stand for itself. */
  predicate Spells(t: string, s: string, inValue: bool)
    decreases |s|
  {
    if s == "" then t == ""
    else
      t != "" &&
      if t[0] == '%' then |t| > 2 && IsEscape(t[1], t[2], s[0]) && Spells(t[3..], s[1..], inValue)
      else
        && (if t[0] == '+' then s[0] == ' ' else t[0] == s[0] && (!IsReserved(t[0]) || (inValue && t[0] == '=')))
        && Spells(t[1..], s[1..], inValue)
  }

  /** A name, or a name and a value, as spelled, and the separators after it. */
  datatype Item = Name(name: string, text: string, end: string)
                | NameValue(name: string, text: string, value: string, valueText: string, end: string)

  predicate AreSeparators(s: string) {
    forall c :: c in s ==> c == '&' || c == ';'
  }

  predicate IsItem(i: Item) {
    && NUL !in i.name && Spells(i.text, i.name, false) && AreSeparators(i.end)
    && (i.Name? ==> i.name != "")
    && (i.NameValue? ==> NUL !in i.value && Spells(i.valueText, i.value, true))
  }

  function ItemText(i: Item): string {
    if i.Name? then i.text else i.text + ['='] + i.valueText
  }

  /** There are separators after every item but perhaps the last. */
  predicate AreItems(items: seq<Item>) {
    forall k :: 0 <= k < |items| ==> IsItem(items[k]) && (k < |items| - 1 ==> items[k].end != "")
  }

  function QueryText(items: seq<Item>): string {
    if items == [] then "" else ItemText(items[0]) + items[0].end + QueryText(items[1..])
  }

  /** A name alone has a blank value. */
  function PairsFor(items: seq<Item>): seq<Pair> {
    if items == [] then []
    else [(items[0].name, if items[0].Name? then "" else items[0].value)] + PairsFor(items[1..])
  }

  lemma DigitValue(c: char, d: nat)
    requires IsDigit(c, d)
    ensures IsHex(c) && HexValue(c) == d && c != '+'
  {
  }

  lemma EscapeIs(h: char, l: char, c: char, rest: string)
    requires IsEscape(h, l, c)
    ensures Plus(['%', h, l]) == ['%', h, l]
    ensures UnescapeUrl(['%', h, l] + rest) == [c] + UnescapeUrl(rest)
  {
    hide IsDigit, IsHex, HexValue;
    DigitValue(h, c as int / 16);
    DigitValue(l, c as int % 16);
    var u := ['%', h, l] + rest;
    assert u[0] == '%' && u[1] == h && u[2] == l && u[3..] == rest;
  }

  lemma {:induction false} SpelledReadsBack(t: string, s: string, inValue: bool)
    requires Spells(t, s, inValue)
    ensures UnescapeUrl(Plus(t)) == s
    ensures t == "" <==> s == ""
    decreases |s|
  {
    hide IsEscape, IsDigit, Plus;
    if s == "" {
      PlusConcat("", "");
    } else if t[0] == '%' {
      SpelledReadsBack(t[3..], s[1..], inValue);
      assert t == ['%', t[1], t[2]] + t[3..];
      PlusConcat(['%', t[1], t[2]], t[3..]);
      EscapeIs(t[1], t[2], s[0], Plus(t[3..]));
    } else {
      SpelledReadsBack(t[1..], s[1..], inValue);
      assert t == [t[0]] + t[1..];
      PlusConcat([t[0]], t[1..]);
      assert Plus([t[0]]) == [s[0]];
      assert s[0] != '%' && ([s[0]] + Plus(t[1..]))[1..] == Plus(t[1..]);
    }
  }

  /** Nothing in the text of a name or value ends it. */
  predicate IsKept(t: string, inValue: bool) {
    forall c :: c in t ==> !IsSeparator(c) && c != NUL && (c == '=' ==> inValue)
  }

  lemma DigitIsKept(c: char, d: nat)
    requires IsDigit(c, d)
    ensures !IsSeparator(c) && c != NUL && c != '='
  {
    DigitValue(c, d);
  }

  lemma {:induction false} SpelledIsKept(t: string, s: string, inValue: bool)
    requires Spells(t, s, inValue)
    ensures IsKept(t, inValue)
    decreases |s|
  {
    hide IsDigit;
    if s == "" {
    } else if t[0] == '%' {
      SpelledIsKept(t[3..], s[1..], inValue);
      DigitIsKept(t[1], s[0] as int / 16);
      DigitIsKept(t[2], s[0] as int % 16);
      assert t == ['%', t[1], t[2]] + t[3..];
    } else {
      SpelledIsKept(t[1..], s[1..], inValue);
      assert t == [t[0]] + t[1..];
    }
  }

  lemma SpelledIsCooked(t: string, s: string, inValue: bool)
    requires Spells(t, s, inValue) && NUL !in s
    ensures Cooked(Plus(t)) == s
  {
    SpelledReadsBack(t, s, inValue);
    NulFree(s);
  }

  lemma KeptAround(a: string, b: string)
    requires IsKept(a, false) && IsKept(b, true)
    ensures IsKept(a + ['='] + b, true)
  {
  }

  lemma NoEquals(t: string)
    requires IsKept(t, false)
    ensures '=' !in Plus(t)
  {
    assert forall x :: 0 <= x < |t| ==> t[x] in t;
  }

  lemma NameReadsBack(i: Item)
    requires IsItem(i) && i.Name?
    ensures i.text != "" && IsKept(i.text, true)
    ensures ValueOf(Plus(i.text)) == "" && Cooked(KeyOf(Plus(i.text))) == i.name
  {
    hide Cooked, Spells, AreSeparators, Plus;
    SpelledIsCooked(i.text, i.name, false);
    SpelledIsKept(i.text, i.name, false);
    SpelledReadsBack(i.text, i.name, false);
    var k := Plus(i.text);
    NoEquals(i.text);
    assert k == k[..|k|];
    IndexOfIs(k, '=', |k|);
  }

  lemma ValueReadsBack(i: Item)
    requires IsItem(i) && i.NameValue?
    ensures IsKept(ItemText(i), true)
    ensures var piece := Plus(ItemText(i));
            && Cooked(KeyOf(piece)) == i.name && Cooked(ValueOf(piece)) == i.value
            && (ValueOf(piece) == "" <==> i.value == "")
  {
    hide Cooked, Spells, AreSeparators, IsKept;
    SpelledIsCooked(i.text, i.name, false);
    SpelledIsKept(i.text, i.name, false);
    SpelledIsCooked(i.valueText, i.value, true);
    SpelledIsKept(i.valueText, i.value, true);
    SpelledReadsBack(i.valueText, i.value, true);
    var (k, v) := (Plus(i.text), Plus(i.valueText));
    var piece := k + ['='] + v;
    assert Plus(ItemText(i)) == piece;
    KeptAround(i.text, i.valueText);
    NoEquals(i.text);
    IndexOfConcat(k, '=', v);
    assert piece[..|k|] == k && piece[|k| + 1..] == v;
  }

  /** The text of an item, and the pair it is read as. */
  lemma ItemReadsBack(i: Item, keepBlank: bool)
    requires IsItem(i)
    ensures ItemText(i) != "" && IsKept(ItemText(i), true)
    ensures PairOf(Plus(ItemText(i)), keepBlank) == Kept(PairsFor([i]), keepBlank)
  {
    hide Cooked, KeyOf, ValueOf, Plus, IsItem, IsKept;
    assert [i][1..] == [];
    NothingCooked();
    if i.Name? {
      NameReadsBack(i);
    } else {
      ValueReadsBack(i);
    }
  }

  lemma NothingCooked()
    ensures Cooked("") == ""
  {
  }

  lemma {:induction false} SeparatorsAreSkipped(s: string, rest: string)
    requires AreSeparators(s)
    ensures Pieces(s + rest) == Pieces(rest)
    decreases |s|
  {
    hide Pieces;
    if s == "" {
      assert s + rest == rest;
    } else {
      assert s[0] in s;
      assert forall c :: c in s[1..] ==> c in s;
      SeparatorsAreSkipped(s[1..], rest);
      PiecesStep(s + rest, 0);
      assert Rest(s + rest, 1) == s[1..] + rest;
      assert [] + Pieces(s[1..] + rest) == Pieces(s[1..] + rest);
    }
  }

  lemma CutPiece(e: string, end: string, rest: string)
    requires e != "" && IsKept(e, true) && AreSeparators(end) && end != ""
    ensures Pieces(e + end + rest) == [Plus(e)] + Pieces(end[1..] + rest)
  {
    hide Pieces, Plus;
    var s := e + end + rest;
    assert end[0] in end && s[|e|] == end[0];
    assert forall k :: 0 <= k < |e| ==> s[k] == e[k] && e[k] in e;
    NextSeparatorIs(s, |e|);
    PiecesStep(s, |e|);
    assert s[..|e|] == e && Rest(s, |e| + 1) == end[1..] + rest;
  }

  lemma FirstPiece(e: string, end: string, rest: string, keepBlank: bool)
    requires e != "" && IsKept(e, true) && AreSeparators(end) && end != ""
    ensures PairsOf(Pieces(e + end + rest), keepBlank) == PairOf(Plus(e), keepBlank) + PairsOf(Pieces(rest), keepBlank)
  {
    hide Pieces, Plus, PairOf;
    CutPiece(e, end, rest);
    assert forall c :: c in end[1..] ==> c in end;
    SeparatorsAreSkipped(end[1..], rest);
    assert ([Plus(e)] + Pieces(rest))[1..] == Pieces(rest);
  }

  lemma KeptCons(p: Pair, pairs: seq<Pair>, keepBlank: bool)
    ensures Kept([p] + pairs, keepBlank) == Kept([p], keepBlank) + Kept(pairs, keepBlank)
  {
    assert ([p] + pairs)[1..] == pairs && [p][1..] == [];
  }

  lemma {:induction false} ItemsReadBack(items: seq<Item>, keepBlank: bool)
    requires AreItems(items)
    ensures PairsOf(Pieces(QueryText(items)), keepBlank) == Kept(PairsFor(items), keepBlank)
    decreases |items|
  {
    hide Pieces, PairsOf, PairOf, Plus, Kept, IsKept, ItemText, IsItem;
    if items == [] {
      NoPieces(keepBlank);
      assert Kept([], keepBlank) == [] by { NothingKept(keepBlank); }
    } else {
      var i := items[0];
      assert IsItem(i);
      ItemReadsBack(i, keepBlank);
      ItemEnd(i);
      assert AreItems(items[1..]);
      ItemsReadBack(items[1..], keepBlank);
      KeptCons(PairsFor([i])[0], PairsFor(items[1..]), keepBlank);
      assert PairsFor([i]) == [PairsFor([i])[0]];
      if i.end == "" {
        assert items[1..] == [];
        assert ItemText(i) + "" + "" == ItemText(i);
        LastPiece(ItemText(i), keepBlank);
        NothingKept(keepBlank);
        assert Kept(PairsFor([i]), keepBlank) + [] == Kept(PairsFor([i]), keepBlank);
      } else {
        FirstPiece(ItemText(i), i.end, QueryText(items[1..]), keepBlank);
      }
    }
  }

  lemma ItemEnd(i: Item)
    requires IsItem(i)
    ensures AreSeparators(i.end)
  {
  }

  lemma LastPiece(e: string, keepBlank: bool)
    requires e != "" && IsKept(e, true)
    ensures PairsOf(Pieces(e), keepBlank) == PairOf(Plus(e), keepBlank)
  {
    PiecesOfLast(e, keepBlank);
  }

  lemma NothingKept(keepBlank: bool)
    ensures Kept([], keepBlank) == []
  {
  }

  lemma {:induction false} QueryHasNoNul(items: seq<Item>)
    requires AreItems(items)
    ensures NUL !in QueryText(items)
    decreases |items|
  {
    hide ItemText, IsItem;
    if items != [] {
      assert IsItem(items[0]);
      ItemReadsBack(items[0], true);
      ItemEnd(items[0]);
      assert AreItems(items[1..]);
      QueryHasNoNul(items[1..]);
    }
  }

  /** However its names and values are spelled, and whatever separators stand before, between and after
      them, a query is read as its pairs in order; a name without an equals sign has a blank value, and
      blank ones are left out unless they are asked for. */
  lemma QueryReadsBack(before: string, items: seq<Item>, keepBlank: bool)
    requires AreSeparators(before) && AreItems(items)
    ensures Pairs(before + QueryText(items), keepBlank) == Kept(PairsFor(items), keepBlank)
    ensures Pairs(before + QueryText(items), true) == PairsFor(items)
  {
    hide Pieces, PairsOf, QueryText, AreItems, Kept, PairsFor;
    QueryHasNoNul(items);
    NulFree(before + QueryText(items));
    SeparatorsAreSkipped(before, QueryText(items));
    ItemsReadBack(items, keepBlank);
    ItemsReadBack(items, true);
    KeptAll(PairsFor(items));
  }
}
