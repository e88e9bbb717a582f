/** The reader and writer of Solidity uint256[] arguments in src/parser_impl.cpp, over a payload of bytes. Pointers are
    positions in the payload; sizes are 64-bit and wrap where the source multiplies them. */
module AbiLists {
  import opened Amounts

  const SIZE_LIMIT: nat := 0x1_0000_0000_0000_0000
  /** 2^59: the number of 32-byte words at which a 64-bit byte count wraps. */
  const COUNT_LIMIT: nat := 0x800_0000_0000_0000

  /** cmt_buf_t: a range of the payload. */
  datatype Buf = Buf(begin: nat, end: nat) {
    function Length(): nat {
      if begin <= end then end - begin else 0
    }
  }

  datatype Code = Ok | NoBufs | OutOfDomain

  /** size_t arithmetic: the bytes of n words, modulo 2^64. */
  function WordBytes(n: nat): nat {
    n * 32 % SIZE_LIMIT
  }

  lemma WordBytesAre(n: nat)
    ensures WordBytes(n) == 32 * (n % COUNT_LIMIT)
    ensures n < SIZE_LIMIT ==> (WordBytes(n) == 32 * n <==> n < COUNT_LIMIT)
  {
  }

  // ---------- libcmt ----------

  /** cmt_buf_split. */
  function Split(b: Buf, n: nat): (r: (Code, Buf, Buf))
    ensures r.0.Ok? <==> n <= b.Length()
    ensures r.0.Ok? ==> r.1.Length() == n && r.2.Length() == b.Length() - n
  {
    if b.Length() < n then (NoBufs, b, b) else (Ok, Buf(b.begin, b.begin + n), Buf(b.begin + n, b.end))
  }

  function WordAt(p: seq<byte>, at: nat): nat
    requires at + 32 <= |p|
  {
    Value(p[at..at + 32])
  }

  /** cmt_abi_get_uint into a 64-bit target: splits off one word, and rejects a value that does not fit. */
  function GetUint(p: seq<byte>, b: Buf): (r: (Code, nat, Buf))
    requires b.end <= |p|
  {
    if b.Length() < 32 then (NoBufs, 0, b)
    else if WordAt(p, b.begin) >= SIZE_LIMIT then (OutOfDomain, 0, Buf(b.begin + 32, b.end))
    else (Ok, WordAt(p, b.begin), Buf(b.begin + 32, b.end))
  }

  /** cmt_abi_encode_uint: writes one big-endian word. */
  method EncodeUint(v: nat, payload: array<byte>, at: nat)
    requires at + 32 <= payload.Length
    modifies payload
    ensures payload[..] == Patch(old(payload[..]), at, Bytes(v, 32))
  {
    CopyInto(Bytes(v, 32), payload, at);
  }

  /** A payload with the bytes d written at a position. */
  function Patch(p: seq<byte>, at: nat, d: seq<byte>): (q: seq<byte>)
    requires at + |d| <= |p|
    ensures |q| == |p|
    ensures forall i :: 0 <= i < |p| ==> q[i] == if at <= i < at + |d| then d[i - at] else p[i]
  {
    p[..at] + d + p[at + |d|..]
  }

  /** std::copy_n into the payload. */
  method CopyInto(d: seq<byte>, payload: array<byte>, at: nat)
    requires at + |d| <= payload.Length
    modifies payload
    ensures payload[..] == Patch(old(payload[..]), at, d)
  {
    for i := 0 to |d|
      invariant forall j :: 0 <= j < payload.Length ==>
                  payload[j] == if at <= j < at + i then d[j - at] else old(payload[j])
    {
      payload[at + i] := d[i];
    }
  }

  // ---------- reading ----------

  /** Where a reader that starts at `start` and takes its offset word from `of` finds a list: the position of its first
      word and the number of words the reader believes in. */
  datatype Place = Place(begin: nat, count: nat)

  /** The reader accepts: the offset word, the length word behind it, and the wrapped byte count all fit. */
  ghost predicate Accepts(p: seq<byte>, start: Buf, of: Buf)
    requires start.end <= |p| && of.end <= |p|
  {
    of.Length() >= 32 && WordAt(p, of.begin) < SIZE_LIMIT &&
    var at := start.begin + WordAt(p, of.begin);
    at + 32 <= start.end && WordAt(p, at) < SIZE_LIMIT && at + 32 + WordBytes(WordAt(p, at)) <= start.end
  }

  /** The reader meets a word that does not fit 64 bits. */
  ghost predicate TooWide(p: seq<byte>, start: Buf, of: Buf)
    requires start.end <= |p| && of.end <= |p|
  {
    of.Length() >= 32 &&
    var offset := WordAt(p, of.begin);
    offset >= SIZE_LIMIT || (start.begin + offset + 32 <= start.end && WordAt(p, start.begin + offset) >= SIZE_LIMIT)
  }

  ghost function PlaceOf(p: seq<byte>, start: Buf, of: Buf): Place
    requires start.end <= |p| && of.end <= |p| && Accepts(p, start, of)
  {
    var at := start.begin + WordAt(p, of.begin);
    Place(at + 32, WordAt(p, at) % COUNT_LIMIT)
  }

  /** A reader at `start` with offset word `of` finds exactly the list `d`, given as its bytes. */
  ghost predicate Reads(p: seq<byte>, start: Buf, of: Buf, d: seq<byte>) {
    start.end <= |p| && of.end <= |p| && Accepts(p, start, of) &&
    var w := PlaceOf(p, start, of);
    w.begin + 32 * w.count <= |p| && p[w.begin..w.begin + 32 * w.count] == d
  }

  /** cma_abi_peek_uint256_list_d: the bytes of the list, and the offset buffer moved past its word. */
  method PeekList(payload: array<byte>, start: Buf, of: Buf) returns (code: Code, list: Buf, next: Buf)
    requires start.end <= payload.Length && of.end <= payload.Length
    ensures code.Ok? <==> Accepts(payload[..], start, of)
    ensures code.OutOfDomain? <==> TooWide(payload[..], start, of)
    ensures code.Ok? ==> var w := PlaceOf(payload[..], start, of); list == Buf(w.begin, w.begin + 32 * w.count)
    ensures next == if of.begin + 32 <= of.end then Buf(of.begin + 32, of.end) else of
  {
    list := Buf(0, 0);
    var (c, offset, tail) := GetUint(payload[..], of);
    next := tail;
    if c != Ok {
      return c, list, next;
    }
    var it := Buf(start.begin + offset, start.end);
    var (d, size, rest) := GetUint(payload[..], it);
    if d != Ok {
      return d, list, next;
    }
    WordBytesAre(size);
    size := WordBytes(size);
    if rest.Length() < size {
      return NoBufs, list, next;
    }
    var (e, bytes, _) := Split(rest, size);
    return e, bytes, next;
  }

  /** cma_abi_get_uint256_list_d: the number of words and where they are. */
  method GetList(payload: array<byte>, start: Buf, of: Buf) returns (code: Code, n: nat, begin: nat, next: Buf)
    requires start.end <= payload.Length && of.end <= payload.Length
    ensures code.Ok? <==> Accepts(payload[..], start, of)
    ensures code.OutOfDomain? <==> TooWide(payload[..], start, of)
    ensures code.Ok? ==> PlaceOf(payload[..], start, of) == Place(begin, n) && begin + 32 * n <= start.end
    ensures forall d :: Reads(payload[..], start, of, d) <==> code.Ok? && d == payload[begin..begin + 32 * n]
    ensures next == if of.begin + 32 <= of.end then Buf(of.begin + 32, of.end) else of
  {
    var bytes;
    code, bytes, next := PeekList(payload, start, of);
    n, begin := bytes.Length() / 32, bytes.begin;
    if code.Ok? {
      WordBytesAre(WordAt(payload[..], start.begin + WordAt(payload[..], of.begin)));
    }
  }

  /** The reader's count is the length word exactly when the byte count does not wrap. */
  lemma CountIsHonest(p: seq<byte>, start: Buf, of: Buf)
    requires start.end <= |p| && of.end <= |p| && Accepts(p, start, of)
    ensures var at := start.begin + WordAt(p, of.begin);
            PlaceOf(p, start, of).count == WordAt(p, at) <==> 32 * WordAt(p, at) < SIZE_LIMIT
  {
  }

  // ---------- writing ----------

  /** The payload after a list of n words was put at `at`: its offset word, its length word, and its bytes. */
  ghost function Put(p: seq<byte>, frame: nat, of: nat, at: nat, n: nat, d: seq<byte>): (q: seq<byte>)
    requires of + 32 <= |p| && frame <= at && |d| == 32 * n && at + 32 + WordBytes(n) <= |p|
    ensures |q| == |p|
  {
    WordBytesAre(n);
    Patch(Patch(Patch(p, of, Bytes(at - frame, 32)), at, Bytes(n, 32)), at + 32, d[..WordBytes(n)])
  }

  /** cma_abi_reserve_uints_d: writes both words and returns the room for the data; on failure nothing changes. */
  method ReserveUints(payload: array<byte>, me: Buf, of: Buf, n: nat, start: nat)
    returns (code: Code, out: Buf, rest: Buf)
    requires me.end <= payload.Length && of.begin + 32 <= payload.Length && start <= me.begin
    modifies payload
    ensures code == if 32 + WordBytes(n) <= me.Length() then Ok else NoBufs
    ensures if code.Ok? then
              out == Buf(me.begin + 32, me.begin + 32 + WordBytes(n)) && rest == Buf(out.end, me.end) &&
              payload[..] ==
                Patch(Patch(old(payload[..]), of.begin, Bytes(me.begin - start, 32)), me.begin, Bytes(n, 32))
            else payload[..] == old(payload[..]) && rest == me
  {
    var n32 := WordBytes(n);
    var (c, uints, tmp) := Split(me, 32);
    if c != Ok {
      return c, me, me;
    }
    var (d, room, tail) := Split(tmp, n32);
    if d != Ok {
      return d, me, me;
    }
    EncodeUint(uints.begin - start, payload, of.begin);
    EncodeUint(n, payload, uints.begin);
    return Ok, room, tail;
  }

  /** cma_abi_put_uint256_list_d: the list has n words, given as bytes. */
  method PutList(payload: array<byte>, me: Buf, of: Buf, frame: Buf, n: nat, data: seq<byte>)
    returns (code: Code, rest: Buf)
    requires me.end <= payload.Length && of.begin + 32 <= payload.Length && frame.begin <= me.begin
    requires |data| == 32 * n
    modifies payload
    ensures code == if 32 + WordBytes(n) <= me.Length() then Ok else NoBufs
    ensures if code.Ok? then
              rest == Buf(me.begin + 32 + WordBytes(n), me.end) &&
              payload[..] == Put(old(payload[..]), frame.begin, of.begin, me.begin, n, data)
            else payload[..] == old(payload[..]) && rest == me
  {
    WordBytesAre(n);
    var room;
    code, room, rest := ReserveUints(payload, me, of, n, frame.begin);
    if code.Ok? {
      CopyInto(data[..WordBytes(n)], payload, room.begin);
    }
  }

  // ---------- round trip ----------

  lemma {:induction false} PowGrows(m: nat, n: nat)
    requires m <= n
    ensures Pow256(m) <= Pow256(n)
  {
    if m < n {
      PowGrows(m, n - 1);
    }
  }

  /** Sizes are 8 bytes wide, and the word count at which their byte count wraps is a 32nd of that. */
  lemma SizesAreWidths()
    ensures SIZE_LIMIT == Pow256(8) && 32 * COUNT_LIMIT == SIZE_LIMIT
  {
    assert Pow256(8) == 0x1_0000_0000_0000_0000;
  }

  lemma WordFits(v: nat)
    requires v < SIZE_LIMIT
    ensures Value(Bytes(v, 32)) == v
  {
    BytesRoundTrip(v, 32);
    SizesAreWidths();
    PowGrows(8, 32);
    hide Value, Bytes, Pow256;
    ModUnique(v, Pow256(32), 0, v);
  }

  /** The bytes just written are there, and the other bytes are not touched. */
  lemma PutBytes(p: seq<byte>, frame: nat, of: nat, at: nat, n: nat, d: seq<byte>)
    requires of + 32 <= at && frame <= at && |d| == 32 * n && at + 32 + WordBytes(n) <= |p|
    ensures var q := Put(p, frame, of, at, n, d);
            |q| == |p| && q[of..of + 32] == Bytes(at - frame, 32) && q[at..at + 32] == Bytes(n, 32) &&
            WordBytes(n) <= |d| && q[at + 32..at + 32 + WordBytes(n)] == d[..WordBytes(n)]
    ensures forall i :: 0 <= i < at && !(of <= i < of + 32) ==> Put(p, frame, of, at, n, d)[i] == p[i]
  {
    WordBytesAre(n);
    hide Bytes;
  }

  /** Where the reader looks after a list was put. */
  lemma PutPlace(p: seq<byte>, start: Buf, of: Buf, at: nat, n: nat, d: seq<byte>)
    requires of.begin + 32 <= of.end <= at && start.begin <= at && |d| == 32 * n
    requires at + 32 + WordBytes(n) <= start.end <= |p| < SIZE_LIMIT && n < SIZE_LIMIT
    ensures var q := Put(p, start.begin, of.begin, at, n, d);
            |q| == |p| && Accepts(q, start, of) && PlaceOf(q, start, of) == Place(at + 32, n % COUNT_LIMIT)
  {
    hide Value, Bytes, Put, WordBytes;
    WordBytesAre(n);
    WordFits(at - start.begin);
    WordFits(n);
    PutBytes(p, start.begin, of.begin, at, n, d);
  }

  /** A list that was just put is read back through its own offset word up to the wrap of the byte count, and so
      unchanged exactly when it has fewer than 2^59 words. */
  lemma PutIsRead(p: seq<byte>, start: Buf, of: Buf, at: nat, n: nat, d: seq<byte>)
    requires of.begin + 32 <= of.end <= at && start.begin <= at && |d| == 32 * n
    requires at + 32 + WordBytes(n) <= start.end <= |p| < SIZE_LIMIT && n < SIZE_LIMIT
    ensures Reads(Put(p, start.begin, of.begin, at, n, d), start, of, d[..32 * (n % COUNT_LIMIT)])
    ensures Reads(Put(p, start.begin, of.begin, at, n, d), start, of, d) <==> n < COUNT_LIMIT
  {
    hide Value, Bytes, Put, Accepts, PlaceOf, WordBytes;
    WordBytesAre(n);
    PutPlace(p, start, of, at, n, d);
    PutBytes(p, start.begin, of.begin, at, n, d);
  }

  /** Bytes that agree on the two words and on the list give the same reading. */
  lemma SameBytesSameRead(p: seq<byte>, q: seq<byte>, start: Buf, of: Buf, d: seq<byte>)
    requires Reads(p, start, of, d) && |q| == |p|
    requires q[of.begin..of.begin + 32] == p[of.begin..of.begin + 32]
    requires var w := PlaceOf(p, start, of);
             w.begin >= 32 && q[w.begin - 32..w.begin] == p[w.begin - 32..w.begin] &&
             q[w.begin..w.begin + 32 * w.count] == p[w.begin..w.begin + 32 * w.count]
    ensures Reads(q, start, of, d) && PlaceOf(q, start, of) == PlaceOf(p, start, of)
  {
    hide Value;
  }

  /** Writing elsewhere leaves a list readable: at another offset word, and past the end of the list. */
  lemma PutKeepsRead(p: seq<byte>, start: Buf, of: Buf, d: seq<byte>, of2: nat, at: nat, n: nat, e: seq<byte>)
    requires Reads(p, start, of, d)
    requires start.begin <= at && |e| == 32 * n && at + 32 + WordBytes(n) <= |p| && of2 + 32 <= at
    requires of.begin + 32 <= at && (of2 + 32 <= of.begin || of.begin + 32 <= of2)
    requires var w := PlaceOf(p, start, of); of2 + 64 <= w.begin && w.begin + 32 * w.count <= at
    ensures Reads(Put(p, start.begin, of2, at, n, e), start, of, d)
  {
    hide Put, Bytes, Value, WordBytes;
    var w := PlaceOf(p, start, of);
    var q := Put(p, start.begin, of2, at, n, e);
    PutBytes(p, start.begin, of2, at, n, e);
    assert q[of.begin..of.begin + 32] == p[of.begin..of.begin + 32];
    hide Accepts;
    SameBytesSameRead(p, q, start, of, d);
  }

  /** Two lists put one behind the other are both read back, each through its own offset word, up to the wrap of their
      byte counts; both come back unchanged exactly when both have fewer than 2^59 words. */
  ghost predicate BothRead(p: seq<byte>, start: Buf, of: Buf, n: nat, d: seq<byte>, of2: Buf, m: nat, e: seq<byte>)
    requires |d| == 32 * n && |e| == 32 * m
  {
    Reads(p, start, of, d[..32 * (n % COUNT_LIMIT)]) && Reads(p, start, of2, e[..32 * (m % COUNT_LIMIT)]) &&
    (Reads(p, start, of, d) && Reads(p, start, of2, e) <==> n < COUNT_LIMIT && m < COUNT_LIMIT)
  }

  lemma TwoPuts(p: seq<byte>, start: Buf, of: Buf, of2: Buf, at: nat, n: nat, d: seq<byte>, m: nat, e: seq<byte>)
    requires |d| == 32 * n && |e| == 32 * m && n < SIZE_LIMIT && m < SIZE_LIMIT && start.end <= |p| < SIZE_LIMIT
    requires start.begin <= of.begin && of.end == of.begin + 32 == of2.begin && of2.end == of2.begin + 32 <= at
    requires at + 64 + WordBytes(n) + WordBytes(m) <= start.end
    ensures var q := Put(p, start.begin, of.begin, at, n, d);
            |q| == |p| &&
            BothRead(Put(q, start.begin, of2.begin, at + 32 + WordBytes(n), m, e), start, of, n, d, of2, m, e)
  {
    hide Put, Accepts, WordBytes, PlaceOf, WordAt, Value, Bytes, Reads;
    var next := at + 32 + WordBytes(n);
    var q := Put(p, start.begin, of.begin, at, n, d);
    var r := Put(q, start.begin, of2.begin, next, m, e);
    var head := d[..32 * (n % COUNT_LIMIT)];
    PutBytes(p, start.begin, of.begin, at, n, d);
    PutIsRead(p, start, of, at, n, d);
    PutPlace(p, start, of, at, n, d);
    PutIsRead(q, start, of2, next, m, e);
    WordBytesAre(n);
    PutKeepsRead(q, start, of, head, of2.begin, next, m, e);
    if n < COUNT_LIMIT {
      assert head == d;
    } else {
      OneReading(r, start, of, head, d);
    }
  }

  /** A reader finds one list only. */
  lemma OneReading(p: seq<byte>, start: Buf, of: Buf, d: seq<byte>, e: seq<byte>)
    requires Reads(p, start, of, d) && |d| != |e|
    ensures !Reads(p, start, of, e)
  {
  }

  /** The list argument part of a batch voucher: the offset words of the two lists (and of a third argument) are set
      aside, then both lists are put, one behind the other. The frame begins at the first argument, before me. */
  method PutTwoLists(payload: array<byte>, me: Buf, frame: Buf, n: nat, ids: seq<byte>, m: nat, amounts: seq<byte>)
    returns (code: Code, ofIds: Buf, ofAmounts: Buf, rest: Buf)
    requires frame.begin <= me.begin && me.end == frame.end
    requires frame.end <= payload.Length < SIZE_LIMIT && n < SIZE_LIMIT && m < SIZE_LIMIT
    requires |ids| == 32 * n && |amounts| == 32 * m
    modifies payload
    ensures code == if 160 + WordBytes(n) + WordBytes(m) <= me.Length() then Ok else NoBufs
    ensures code.Ok? ==>
              ofIds == Buf(me.begin, me.begin + 32) && ofAmounts == Buf(me.begin + 32, me.begin + 64) &&
              BothRead(payload[..], frame, ofIds, n, ids, ofAmounts, m, amounts) &&
              rest == Buf(me.begin + 160 + WordBytes(n) + WordBytes(m), me.end)
  {
    hide Put, BothRead, Reads, WordBytes;
    var buf := me;
    rest := me;
    code, ofIds, buf := SplitOff(buf);
    ofAmounts := ofIds;
    if code != Ok {
      return;
    }
    code, ofAmounts, buf := SplitOff(buf);
    if code != Ok {
      return;
    }
    var ofExec;
    code, ofExec, buf := SplitOff(buf);
    if code != Ok {
      return;
    }
    code, buf := PutList(payload, buf, ofIds, frame, n, ids);
    if code != Ok {
      return;
    }
    code, rest := PutList(payload, buf, ofAmounts, frame, m, amounts);
    if code != Ok {
      return;
    }
    TwoPuts(old(payload[..]), frame, ofIds, ofAmounts, me.begin + 96, n, ids, m, amounts);
  }

  /** cmt_abi_put_bytes_s: sets a word aside for an offset. */
  method SplitOff(b: Buf) returns (code: Code, word: Buf, rest: Buf)
    ensures code == if 32 <= b.Length() then Ok else NoBufs
    ensures code.Ok? ==> word == Buf(b.begin, b.begin + 32) && rest == Buf(b.begin + 32, b.end)
  {
    var (c, w, r) := Split(b, 32);
    return c, w, r;
  }
}
