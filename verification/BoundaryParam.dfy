/** The boundary parameter of a multipart content type
    (`FieldStorage.__init__`, lib/python/mod_python/util.py). */
module BoundaryParam {
  import opened Bytes
  import opened FormParser
  import opened Optional
  import opened Text

  const BOUNDARY: string := "boundary="

  /** The last place at or before `k` where `p` occurs in `s`. */
  function LastIndex(p: string, s: string, k: nat): (i: Option<nat>)
    ensures i.None? ==> forall j: nat :: j <= k ==> !OccursAt(p, s, j)
    ensures i.Some? ==> i.value <= k && OccursAt(p, s, i.value)
    ensures i.Some? ==> forall j: nat :: i.value < j <= k ==> !OccursAt(p, s, j)
  {
    if OccursAt(p, s, k) then Some(k)
    else if k == 0 then None
    else LastIndex(p, s, k - 1)
  }

  /** The boundary, or nothing, in which case the request is answered HTTP_BAD_REQUEST. */
  function BoundaryOf(ctype: string): Option<string> {
    match LastIndex(BOUNDARY, Lower(ctype), |ctype|)
    case None => None
    case Some(i) => Some(Unquoted(ctype[i + |BOUNDARY|..]))
  }

  lemma LowerConcat(a: string, b: string)
    ensures Lower(a + b) == Lower(a) + Lower(b)
  {
  }

  lemma OccursAtRight(p: string, a: string, b: string, j: nat)
    ensures OccursAt(p, a + b, |a| + j) <==> OccursAt(p, b, j)
  {
    if j + |p| <= |b| {
      assert (a + b)[|a| + j..|a| + j + |p|] == b[j..j + |p|];
    }
  }

  lemma LastIndexIs(p: string, s: string, i: nat)
    requires p != "" && i <= |s| && OccursAt(p, s, i) && forall j: nat :: i < j <= |s| ==> !OccursAt(p, s, j)
    ensures LastIndex(p, s, |s|) == Some(i)
  {
    hide OccursAt;
  }

  /** An occurrence of the name does not overlap another one. */
  lemma NamesApart(s: string, i: nat, j: nat)
    requires OccursAt(BOUNDARY, s, i) && OccursAt(BOUNDARY, s, j) && i < j
    ensures i + |BOUNDARY| <= j
  {
    assert s[j] == s[j..j + |BOUNDARY|][0] == 'b';
    assert forall d :: 0 < d < |BOUNDARY| ==> s[i + d] == s[i..i + |BOUNDARY|][d] == BOUNDARY[d] != 'b';
  }

  /** The last occurrence of the name counts, in any letter case. */
  lemma LastNameCounts(prefix: string, name: string, rest: string)
    requires Lower(name) == BOUNDARY
    ensures BoundaryOf(prefix + name + rest) ==
            if Occurs(BOUNDARY, Lower(rest)) then BoundaryOf(rest) else Some(Unquoted(rest))
  {
    hide Lower, OccursAt, LastIndex, Unquoted;
    var head := prefix + name;
    var ctype := head + rest;
    var s, r := Lower(ctype), Lower(rest);
    LowerConcat(prefix, name);
    LowerConcat(head, rest);
    assert s == Lower(prefix) + (BOUNDARY + r);
    OccursAtRight(BOUNDARY, Lower(prefix), BOUNDARY + r, 0);
    NameFirst(r);
    forall j: nat | |head| <= j
      ensures OccursAt(BOUNDARY, s, j) == OccursAt(BOUNDARY, r, j - |head|)
    {
      OccursAtRight(BOUNDARY, Lower(head), r, j - |head|);
    }
    forall j: nat | |prefix| < j && OccursAt(BOUNDARY, s, j)
      ensures |head| <= j
    {
      NamesApart(s, |prefix|, j);
    }
    if Occurs(BOUNDARY, r) {
      var i := LastIndex(BOUNDARY, r, |r|).value;
      LastIndexIs(BOUNDARY, s, |head| + i);
      assert i + |BOUNDARY| <= |r| by { OccursFits(r, i); }
      assert ctype[|head| + i + |BOUNDARY|..] == rest[i + |BOUNDARY|..];
    } else {
      assert forall j: nat :: |prefix| < j <= |s| && OccursAt(BOUNDARY, s, j) ==> |head| <= j;
      assert forall j: nat :: j <= |r| ==> !OccursAt(BOUNDARY, r, j);
      LastIndexIs(BOUNDARY, s, |prefix|);
      assert ctype[|prefix| + |BOUNDARY|..] == rest;
    }
  }

  lemma OccursFits(s: string, i: nat)
    requires OccursAt(BOUNDARY, s, i)
    ensures i + |BOUNDARY| <= |s|
  {
  }

  lemma NameFirst(r: string)
    ensures OccursAt(BOUNDARY, BOUNDARY + r, 0)
  {
  }

  /** What comes after the parameter's value: nothing, or something set off from it. */
  predicate IsTail(tail: string) {
    tail != "" ==> tail[0] == ';' || IsSpace(tail[0])
  }

  predicate IsSetOff(tail: string) {
    tail != "" ==> LowerChar(tail[0]) !in BOUNDARY
  }

  /** The name does not reach from the value into what comes after it. */
  lemma NameInEither(value: string, tail: string, j: nat)
    requires IsSetOff(tail) && OccursAt(BOUNDARY, Lower(value + tail), j)
    ensures j + |BOUNDARY| <= |value| || |value| <= j
  {
    var s := Lower(value + tail);
    assert forall d :: 0 <= d < |BOUNDARY| ==> s[j + d] == s[j..j + |BOUNDARY|][d] == BOUNDARY[d];
    assert tail != "" ==> s[|value|] == LowerChar(tail[0]) && s[|value|] !in BOUNDARY;
  }

  lemma {:induction false} NameInTail(value: string, tail: string)
    requires IsSetOff(tail)
    ensures Occurs(BOUNDARY, Lower(value + tail)) <==>
            Occurs(BOUNDARY, Lower(value)) || Occurs(BOUNDARY, Lower(tail))
  {
    hide IsSetOff, OccursAt, Lower;
    LowerConcat(value, tail);
    var v, t, s := Lower(value), Lower(tail), Lower(value + tail);
    forall j: nat | j <= |s| && OccursAt(BOUNDARY, s, j)
      ensures Occurs(BOUNDARY, v) || Occurs(BOUNDARY, t)
    {
      NameInEither(value, tail, j);
      OccursFits(s, j);
      if |value| <= j {
        OccursAtRight(BOUNDARY, v, t, j - |value|);
        assert OccursAt(BOUNDARY, t, j - |value|);
      } else {
        OccursAtLeft(v, t, j);
      }
    }
    forall j: nat | j <= |v| && OccursAt(BOUNDARY, v, j)
      ensures OccursAt(BOUNDARY, s, j)
    {
      OccursFits(v, j);
      OccursAtLeft(v, t, j);
    }
    forall j: nat | j <= |t| && OccursAt(BOUNDARY, t, j)
      ensures OccursAt(BOUNDARY, s, |value| + j)
    {
      OccursAtRight(BOUNDARY, v, t, j);
    }
  }

  lemma OccursAtLeft(a: string, b: string, j: nat)
    requires j + |BOUNDARY| <= |a|
    ensures OccursAt(BOUNDARY, a + b, j) <==> OccursAt(BOUNDARY, a, j)
  {
    assert (a + b)[j..j + |BOUNDARY|] == a[j..j + |BOUNDARY|];
  }

  lemma NameAfterQuote(s: string, j: nat)
    requires OccursAt(BOUNDARY, ['"'] + s, j)
    ensures j > 0 && OccursAt(BOUNDARY, s, j - 1)
  {
    assert (['"'] + s)[j] == (['"'] + s)[j..j + |BOUNDARY|][0] == 'b';
    OccursAtRight(BOUNDARY, ['"'], s, j - 1);
  }

  /** Quotes around a value are no part of the name. */
  lemma {:induction false} NameInUnquoted(value: string)
    ensures Occurs(BOUNDARY, Lower(value)) <==> Occurs(BOUNDARY, Lower(Unquoted(value)))
  {
    hide OccursAt, Lower;
    if Unquoted(value) != value {
      var u := Unquoted(value);
      assert value == ['"'] + (u + ['"']);
      var v, w := Lower(value), Lower(u + ['"']);
      assert v == ['"'] + w by { LowerConcat(['"'], u + ['"']); }
      NameInTail(u, ['"']);
      NoNameInQuote();
      forall j: nat | j <= |v| && OccursAt(BOUNDARY, v, j)
        ensures j > 0 && OccursAt(BOUNDARY, w, j - 1)
      {
        NameAfterQuote(w, j);
      }
      forall j: nat | j <= |w| && OccursAt(BOUNDARY, w, j)
        ensures OccursAt(BOUNDARY, v, j + 1)
      {
        OccursAtRight(BOUNDARY, ['"'], w, j);
      }
    }
  }

  lemma NoNameInQuote()
    ensures !Occurs(BOUNDARY, Lower(['"']))
  {
  }

  lemma TailIsSetOff(tail: string)
    requires IsTail(tail)
    ensures IsSetOff(tail)
  {
  }

  /** Something after the value always changes what is read. */
  lemma TailIsTaken(value: string, tail: string)
    requires IsTail(tail) && tail != ""
    ensures Unquoted(value + tail) != Unquoted(value)
  {
    if Unquoted(value + tail) == value {
      var rest := value + tail;
      assert forall i :: 0 <= i < |value| ==> value[i] == rest[1..|rest| - 1][i] == rest[i + 1];
      AllQuotes(rest, |value|);
    }
  }

  lemma {:induction false} AllQuotes(s: string, n: nat)
    requires n < |s| && s[0] == '"' && forall i :: 0 <= i < n ==> s[i] == s[i + 1]
    ensures s[n] == '"'
  {
    if n > 0 {
      AllQuotes(s, n - 1);
    }
  }

  /** The last parameter with the name in `tail` gives the value again. */
  ghost predicate Repeats(tail: string, value: string) {
    exists k: nat :: k + |BOUNDARY| <= |tail| && OccursAt(BOUNDARY, Lower(tail), k)
                     && !Occurs(BOUNDARY, Lower(tail)[k + 1..]) && Unquoted(tail[k + |BOUNDARY|..]) == Unquoted(value)
  }

  lemma LaterName(s: string, k: nat, j: nat)
    requires k < j && OccursAt(BOUNDARY, s, j)
    ensures Occurs(BOUNDARY, s[k + 1..])
  {
    var t := s[k + 1..];
    assert t[j - k - 1..j - k - 1 + |BOUNDARY|] == s[j..j + |BOUNDARY|];
    assert OccursAt(BOUNDARY, t, j - k - 1);
  }

  lemma NotLaterName(s: string, k: nat)
    requires k < |s| && forall j: nat :: k < j <= |s| ==> !OccursAt(BOUNDARY, s, j)
    ensures !Occurs(BOUNDARY, s[k + 1..])
  {
    var t := s[k + 1..];
    forall j: nat | j <= |t|
      ensures !OccursAt(BOUNDARY, t, j)
    {
      assert !OccursAt(BOUNDARY, s, k + 1 + j);
      assert j + |BOUNDARY| <= |t| ==> t[j..j + |BOUNDARY|] == s[k + 1 + j..k + 1 + j + |BOUNDARY|];
    }
  }

  /** What is read from a text with the name in it is the value of its last parameter. */
  lemma LastIsRead(tail: string, value: string)
    requires Occurs(BOUNDARY, Lower(tail))
    ensures tail != "" && (BoundaryOf(tail) == Some(Unquoted(value)) <==> Repeats(tail, value))
  {
    hide OccursAt, Lower, Unquoted;
    var s := Lower(tail);
    var i := LastIndex(BOUNDARY, s, |tail|).value;
    OccursFits(s, i);
    NotLaterName(s, i);
    forall k: nat | k + |BOUNDARY| <= |tail| && OccursAt(BOUNDARY, s, k) && !Occurs(BOUNDARY, s[k + 1..])
      ensures k == i
    {
      if k < i { LaterName(s, k, i); }
    }
  }

  lemma NoNameToRepeat(tail: string, value: string)
    requires !Occurs(BOUNDARY, Lower(tail))
    ensures !Repeats(tail, value)
  {
  }

  lemma NameOnRightCounts(left: string, right: string)
    requires Occurs(BOUNDARY, Lower(right))
    ensures BoundaryOf(left + right) == BoundaryOf(right)
  {
    hide OccursAt, Lower, Unquoted;
    var s, r := Lower(left + right), Lower(right);
    LowerConcat(left, right);
    var i := LastIndex(BOUNDARY, r, |r|).value;
    OccursFits(r, i);
    forall j: nat | |left| <= j
      ensures OccursAt(BOUNDARY, s, j) == OccursAt(BOUNDARY, r, j - |left|)
    {
      OccursAtRight(BOUNDARY, Lower(left), r, j - |left|);
    }
    LastIndexIs(BOUNDARY, s, |left| + i);
    assert (left + right)[|left| + i + |BOUNDARY|..] == right[i + |BOUNDARY|..];
  }

  /** What is read never has the name in it. */
  lemma ReadHasNoName(ctype: string)
    ensures BoundaryOf(ctype).Some? ==> !Occurs(BOUNDARY, Lower(BoundaryOf(ctype).value))
  {
    hide OccursAt, Lower, Unquoted;
    var s := Lower(ctype);
    var i := LastIndex(BOUNDARY, s, |ctype|);
    if i.Some? {
      OccursFits(s, i.value);
      var rest := ctype[i.value + |BOUNDARY|..];
      assert ctype == ctype[..i.value + |BOUNDARY|] + rest;
      LowerConcat(ctype[..i.value + |BOUNDARY|], rest);
      forall j: nat | j <= |rest|
        ensures !OccursAt(BOUNDARY, Lower(rest), j)
      {
        OccursAtRight(BOUNDARY, Lower(ctype[..i.value + |BOUNDARY|]), Lower(rest), j);
      }
      NameInUnquoted(rest);
    }
  }

  /** A boundary parameter, quoted or not, is read back if and only if it ends the header and the
      name is not in its value, or else the last parameter of that name gives the same value. */
  lemma BoundaryReadsBackIff(prefix: string, name: string, value: string, tail: string)
    requires Lower(name) == BOUNDARY && IsTail(tail)
    ensures BoundaryOf(prefix + name + value + tail) == Some(Unquoted(value)) <==>
            (tail == "" && !Occurs(BOUNDARY, Lower(value))) || Repeats(tail, value)
  {
    hide OccursAt, Occurs, Lower, Unquoted, IsTail, IsSetOff, LastIndex, Repeats;
    var rest := value + tail;
    assert prefix + name + value + tail == prefix + name + rest;
    LastNameCounts(prefix, name, rest);
    assert IsSetOff(tail) by { TailIsSetOff(tail); }
    NameInTail(value, tail);
    if Occurs(BOUNDARY, Lower(tail)) {
      NameOnRightCounts(value, tail);
      LastIsRead(tail, value);
    } else {
      NoNameToRepeat(tail, value);
      if Occurs(BOUNDARY, Lower(value)) {
        NameInUnquoted(value);
        ReadHasNoName(rest);
      } else if tail == "" {
        assert rest == value;
      } else {
        TailIsTaken(value, tail);
      }
    }
  }

  /** Whatever follows the value, set off or not, is taken with it. */
  lemma ParameterAfter(value: string)
    requires value != "" && value[0] != '"' && !Occurs(BOUNDARY, Lower(value))
    ensures BoundaryOf("multipart/form-data; boundary=" + value + "; charset=utf-8") == Some(value + "; charset=utf-8")
  {
    var kind, tail := "multipart/form-data; ", "; charset=utf-8";
    hide BoundaryOf, Occurs;
    assert kind + BOUNDARY == "multipart/form-data; boundary=";
    LowerFixed(BOUNDARY);
    LastNameCounts(kind, BOUNDARY, value + tail);
    assert kind + BOUNDARY + (value + tail) == "multipart/form-data; boundary=" + value + tail;
    NameInTail(value, tail);
    NoNameInCharset();
  }

  lemma NoNameInCharset()
    ensures !Occurs(BOUNDARY, Lower("; charset=utf-8"))
  {
    var s := Lower("; charset=utf-8");
    assert forall i :: 0 <= i < |s| ==> s[i] != 'b';
    assert forall j: nat :: OccursAt(BOUNDARY, s, j) ==> s[j] == s[j..j + |BOUNDARY|][0];
  }
}
