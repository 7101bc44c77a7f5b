/** Reading a bucket brigade (`_filter_read`, src/filterobject.c). */
module FilterBrigade {
  import opened Text

  const HUGE_STRING_LEN: nat := 8192

  datatype Bucket = Data(bytes: string) | Eos | Flush

  /** The bytes before the next end-of-stream or flush bucket. */
  function Content(bb: seq<Bucket>): string {
    if bb == [] || !bb[0].Data? then "" else bb[0].bytes + Content(bb[1..])
  }

  /** The brigade from the next end-of-stream or flush bucket on. */
  function Marks(bb: seq<Bucket>): seq<Bucket> {
    if bb == [] || !bb[0].Data? then bb else Marks(bb[1..])
  }

  /** What `read(len)` or `readline(len)` returns from `s`; a length below -1 reads nothing. */
  function Taken(s: string, len: int, readline: bool): (r: string)
    ensures r <= s
    ensures len >= -1 && |r| < |s| && (len == -1 || |r| < len) ==>
              readline && r != "" && r[|r| - 1] == LF
    ensures len >= 0 ==> |r| <= len
    ensures readline ==> forall i :: 0 <= i < |r| - 1 ==> r[i] != LF
  {
    if len < -1 then ""
    else
      var n := if len == -1 || len > |s| then |s| else len;
      if readline then Line(s, n) else s[..n]
  }

  datatype Result = Returned(bytes: string) | EndOfStream | ClosedFilter

  /** One read of a brigade, as its reader sees it: what is returned, the bytes left before
      the next mark, and the marks, which no read moves or drops except an end-of-stream
      bucket at the very front.  An unbounded read leaves no bucket before the next mark. */
  ghost predicate ReadsBrigade(bb: seq<Bucket>, len: int, readline: bool, r: Result, bb': seq<Bucket>) {
    if bb != [] && bb[0] == Eos then r == EndOfStream && bb' == bb[1..]
    else
      && r == Returned(Taken(Content(bb), len, readline))
      && Content(bb) == r.bytes + Content(bb')
      && Marks(bb') == Marks(bb)
      && (len == -1 && !readline ==> bb' == Marks(bb))
  }

  lemma FirstData(head: string, rest: seq<Bucket>)
    ensures Content([Data(head)] + rest) == head + Content(rest) && Marks([Data(head)] + rest) == Marks(rest)
  {
    assert ([Data(head)] + rest)[1..] == rest;
  }

  lemma SplitFirst(bb: seq<Bucket>, k: nat)
    requires bb != [] && bb[0].Data? && k <= |bb[0].bytes|
    ensures var bb' := [Data(bb[0].bytes[..k]), Data(bb[0].bytes[k..])] + bb[1..];
            Content(bb') == Content(bb) && Marks(bb') == Marks(bb)
  {
    hide Content, Marks;
    var head, tail := bb[0].bytes[..k], bb[0].bytes[k..];
    FirstData(tail, bb[1..]);
    FirstData(head, [Data(tail)] + bb[1..]);
    FirstData(head + tail, bb[1..]);
    assert bb[0].bytes == head + tail && bb == [Data(head + tail)] + bb[1..];
    assert [Data(head), Data(tail)] + bb[1..] == [Data(head)] + ([Data(tail)] + bb[1..]);
    AppendAssoc(head, tail, Content(bb[1..]));
  }

  class Filter {
    const isInput: bool
    var closed: bool
    var bbIn: seq<Bucket>

    constructor (isInput: bool, bb: seq<Bucket>)
      ensures !closed && bbIn == bb && this.isInput == isInput
    {
      this.isInput, closed, bbIn := isInput, false, bb;
    }

    /** Splits the first bucket after `k` bytes. */
    method Split(k: nat)
      requires bbIn != [] && bbIn[0].Data? && k <= |bbIn[0].bytes|
      modifies this`bbIn
      ensures bbIn == [Data(old(bbIn[0].bytes)[..k]), Data(old(bbIn[0].bytes)[k..])] + old(bbIn)[1..]
      ensures Content(bbIn) == Content(old(bbIn)) && Marks(bbIn) == Marks(old(bbIn))
    {
      SplitFirst(bbIn, k);
      bbIn := [Data(bbIn[0].bytes[..k]), Data(bbIn[0].bytes[k..])] + bbIn[1..];
    }

    /** Reads the first bucket.  Reading a file or a pipe bucket may turn it into one that
        holds a first part of its bytes, followed by a bucket for the others. */
    method ReadBucket() returns (data: string)
      requires bbIn != [] && bbIn[0].Data?
      modifies this`bbIn
      ensures bbIn != [] && bbIn[0] == Data(data)
      ensures data == "" ==> |bbIn| <= |old(bbIn)|
      ensures Content(bbIn) == Content(old(bbIn)) && Marks(bbIn) == Marks(old(bbIn))
    {
      data := bbIn[0].bytes;
      var morphs: bool := *;
      if morphs && data != "" {
        var k: nat :| 0 < k <= |data|;
        Split(k);
        data := bbIn[0].bytes;
      }
    }

    method FindNewline(data: string, size: nat) returns (i: nat)
      requires size <= |data|
      ensures i <= size && (forall j :: 0 <= j < i ==> data[j] != LF)
      ensures i < size ==> data[i] == LF
    {
      i := 0;
      while i < size && data[i] != LF
        invariant i <= size && forall j :: 0 <= j < i ==> data[j] != LF
      {
        i := i + 1;
      }
    }

    /** One turn of the read loop: moves the first bucket, or as much of it as the buffer and
        the line allow, to the result. */
    method TakeBucket(room: nat, readline: bool) returns (data: string, newline: bool)
      requires bbIn != [] && bbIn[0].Data? && room > 0
      modifies this`bbIn
      ensures Content(old(bbIn)) == data + Content(bbIn) && Marks(bbIn) == Marks(old(bbIn))
      ensures |data| <= room
      ensures data == "" ==> |bbIn| < |old(bbIn)|
      ensures newline <==> readline && data != "" && data[|data| - 1] == LF
      ensures readline ==> forall j :: 0 <= j < |data| - 1 ==> data[j] != LF
    {
      data := ReadBucket();
      var size := |data|;
      if size > room {
        Split(room);
        size := room;
      }
      newline := false;
      if readline {
        var i := FindNewline(data, size);
        if i < size {
          if i + 1 != size {
            Split(i + 1);
            size := i + 1;
          }
          newline := true;
        }
      }
      data := data[..size];
      assert bbIn[0] == Data(data);
      bbIn := bbIn[1..];
    }

    /** `read` and `readline`: whatever the sizes of the buckets, the result and what is left
        make up what was there. */
    method Read(len: int, readline: bool, more: seq<Bucket>) returns (r: Result)
      modifies this`bbIn
      ensures closed ==> r == ClosedFilter && bbIn == old(bbIn)
      ensures !closed ==>
                ReadsBrigade(old(bbIn) + (if isInput then more else []), len, readline, r, bbIn)
    {
      if closed {
        return ClosedFilter;
      }
      if isInput {
        bbIn := bbIn + more;
      }
      ghost var bb := bbIn;
      assert !isInput ==> bb == old(bbIn) + [];
      if bbIn == [] {
        return Returned("");
      }
      if bbIn[0] == Eos {
        bbIn := bbIn[1..];
        return EndOfStream;
      }
      var bufsize := if len < 0 then HUGE_STRING_LEN else len;
      var bytes := "";
      var newline := false;
      while (|bytes| < len || len == -1) && bbIn != [] && bbIn[0].Data? && !newline
        invariant Content(bb) == bytes + Content(bbIn) && Marks(bbIn) == Marks(bb)
        invariant if len >= 0 then |bytes| <= bufsize == len else len < -1 || |bytes| < bufsize || newline
        invariant len < -1 ==> bytes == ""
        invariant readline ==> forall j :: 0 <= j < |bytes| - 1 ==> bytes[j] != LF
        invariant newline <==> readline && bytes != "" && bytes[|bytes| - 1] == LF
        decreases |Content(bbIn)|, |bbIn|, !newline
      {
        var data;
        ghost var before := bbIn;
        data, newline := TakeBucket(bufsize - |bytes|, readline);
        AppendAssoc(bytes, data, Content(bbIn));
        bytes := bytes + data;
        if !newline && len < 0 && |bytes| == bufsize {
          bufsize := bufsize + HUGE_STRING_LEN;
        }
      }
      TakenIs(Content(bb), len, readline, bytes, Content(bbIn));
      return Returned(bytes);
    }
  }

  /** A result bounded by the length, the line and the data, and by nothing else, is the one
      `Taken` gives. */
  lemma TakenIs(s: string, len: int, readline: bool, r: string, rest: string)
    requires s == r + rest
    requires len < -1 ==> r == ""
    requires len >= 0 ==> |r| <= len
    requires len >= -1 ==>
               || rest == ""
               || |r| == len
               || (readline && r != "" && r[|r| - 1] == LF)
    requires readline ==> forall j :: 0 <= j < |r| - 1 ==> r[j] != LF
    ensures r == Taken(s, len, readline)
  {
    if len >= -1 && readline {
      var n := if len == -1 || len > |s| then |s| else len;
      assert forall j :: 0 <= j < |r| ==> s[j] == r[j];
      LineEndUnique(s, n, |r|);
    }
  }
}
