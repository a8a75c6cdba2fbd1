/**
 * The dynamic string `SDS`: a byte buffer with a header that records the
 * bytes in use (`len`), the bytes still free after them (`free`) and a
 * header type chosen from the length.
 *
 * The header arithmetic is stated on the value `Header`; the class `Sds`
 * holds the buffer and keeps its header equal to what those functions say.
 * Memory plumbing (`sMalloc`, `malloc`, `realloc`, `sdsFree`) is replaced by
 * a fresh `buf` holding the content bytes and the terminator; the header's
 * bytes are accounted for by `Header`, and a grown array becomes the
 * string's `buf`.
 */
module SdsStrings {

  /** Header type for short strings. */
  const SDS_TYPE_5: char := 'e'
  /** Header type for every longer string. */
  const SDS_TYPE_8: char := 'c'
  /** One megabyte, the growth threshold. */
  const SDS_MAX_PREALLOC: int := 1024 * 1024
  /** Largest Java `int`. */
  const INT_MAX: int := 0x7fff_ffff

  // ---------------------------------------------------------------------------
  // Header types and sizes

  /** `sdsRedType`: lengths above 5 take the 8-bit header, the rest the 5-bit one. */
  function SdsReqType(lenSize: int): (t: char)
    ensures t == SDS_TYPE_5 || t == SDS_TYPE_8
    ensures t == SDS_TYPE_8 <==> lenSize > 5
  {
    if lenSize > 5 then SDS_TYPE_8 else SDS_TYPE_5
  }

  /** `sdsHdrSize`: bytes of header for a type; unknown types get the 4-byte default. */
  function SdsHdrSize(t: char): (n: int)
    ensures 1 <= n <= 4
    ensures n == 2 <==> t == SDS_TYPE_5
    ensures n == 1 <==> t == SDS_TYPE_8
    ensures t != SDS_TYPE_5 && t != SDS_TYPE_8 ==> n == 4
  {
    match t
    case 'e' => 2
    case 'c' => 1
    case _ => 4
  }

  /** A requested type always has a known header size: the default is never used. */
  lemma ReqTypeHeaderSize(lenSize: int)
    ensures SdsHdrSize(SdsReqType(lenSize)) == if lenSize > 5 then 1 else 2
  {
  }

  /** The type `sdsNewLen` gives a new string: an empty string is promoted to the 8-bit header. */
  function NewType(initLen: int): (t: char)
    ensures initLen == 0 ==> t == SDS_TYPE_8
    ensures t == SDS_TYPE_5 <==> initLen <= 5 && initLen != 0
  {
    var t := SdsReqType(initLen);
    if t == SDS_TYPE_5 && initLen == 0 then SDS_TYPE_8 else t
  }

  /** The bytes `sdsNewLen` requests: header, content and the terminating zero. */
  function NewLenBytes(initLen: int): (n: int)
    ensures n == initLen + 2 || n == initLen + 3
    ensures n == initLen + 3 <==> NewType(initLen) == SDS_TYPE_5
  {
    SdsHdrSize(NewType(initLen)) + initLen + 1
  }

  /**
   * The capacity `sdsMarkRoomFor` grows to for `need` bytes. Below
   * `SDS_MAX_PREALLOC` the code doubles; at or above it the code adds `need`
   * to itself, which doubles too, so the threshold changes nothing.
   */
  function GrowTarget(need: int): (n: int)
    ensures n == 2 * need
  {
    if need < SDS_MAX_PREALLOC then need * 2 else need + need
  }

  /** The type after growth: the 5-bit header is promoted, so it is always the 8-bit one. */
  function RoomType(newLen: int): (t: char)
    ensures t == SDS_TYPE_8
  {
    var t := SdsReqType(newLen);
    if t == SDS_TYPE_5 then SDS_TYPE_8 else t
  }

  /**
   * The bytes `sdsMarkRoomFor` requests when it grows for `need` bytes:
   * header, doubled capacity and terminator. The header is always one byte.
   */
  function RoomBytes(need: int): (n: int)
    ensures n == 2 * need + 2
  {
    var newLen := GrowTarget(need);
    SdsHdrSize(RoomType(newLen)) + newLen + 1
  }

  // ---------------------------------------------------------------------------
  // The header as a value

  /** `alloc` is the number of bytes the buffer holds before its terminator. */
  datatype Header = Header(len: int, free: int, alloc: int, kind: char)

  /** The header describes its buffer: used and free bytes fit, and a 5-bit header only a short buffer. */
  predicate Fits(h: Header)
  {
    && 0 <= h.len && 0 <= h.free && h.len + h.free <= h.alloc
    && (h.kind == SDS_TYPE_8 || (h.kind == SDS_TYPE_5 && h.alloc <= 5))
  }

  /** The header of a new string of `initLen` bytes. */
  function NewHeader(initLen: int): (h: Header)
    requires 0 <= initLen
    ensures Fits(h) && h.len == initLen && h.free == 0
  {
    Header(initLen, 0, initLen, NewType(initLen))
  }

  /**
   * `sdsClear`: the length drops to 0 and the bytes it held become free, so
   * the buffer is reused by later appends.
   */
  function Cleared(h: Header): (h': Header)
  {
    h.(len := 0, free := h.free + h.len)
  }

  /** Clearing keeps a header consistent with its buffer and frees the bytes that were in use. */
  lemma ClearedFits(h: Header)
    requires Fits(h)
    ensures Fits(Cleared(h)) && Cleared(h).len == 0
    ensures Cleared(h).free == h.free + h.len && Cleared(h).alloc == h.alloc && Cleared(h).kind == h.kind
  {
  }

  /** After clearing, appending as many bytes as the string held, plus its free ones, keeps the buffer. */
  lemma ClearedReuses(h: Header, n: int)
    requires Fits(h) && 0 <= n <= h.len + h.free
    ensures CatHeader(Cleared(h), n).alloc == h.alloc && CatHeader(Cleared(h), n).len == n
    ensures MarkRoom(Cleared(h), n) == Cleared(h)
  {
  }

  /**
   * `sdsMarkRoomFor`: kept when `addLen` bytes are free; otherwise grown to
   * `GrowTarget(len + addLen)` bytes with the 8-bit header, and the free
   * bytes are what the new buffer holds beyond the content.
   */
  function MarkRoom(h: Header, addLen: int): (h': Header)
  {
    if h.free >= addLen then h
    else
      var newLen := GrowTarget(h.len + addLen);
      Header(h.len, newLen - h.len, newLen, RoomType(newLen))
  }

  /** After `MarkRoom` there is room for `addLen` more bytes, the content length is kept, and growth doubles. */
  lemma MarkRoomMakesRoom(h: Header, addLen: int)
    requires Fits(h)
    ensures var g := MarkRoom(h, addLen);
      && Fits(g) && g.len == h.len && g.free >= addLen
      && (h.free >= addLen ==> g == h)
      && (h.free < addLen ==> g.alloc == 2 * (h.len + addLen) && g.kind == SDS_TYPE_8)
  {
  }

  /** `sdsCatLen`: make room for `n` bytes, then `n` of the free bytes are used. */
  function CatHeader(h: Header, n: int): (h': Header)
  {
    var g := MarkRoom(h, n);
    g.(len := g.len + n, free := g.free - n)
  }

  /** Appending keeps the header consistent with its buffer and adds `n` to the length. */
  lemma CatHeaderFits(h: Header, n: int)
    requires Fits(h) && 0 <= n
    ensures Fits(CatHeader(h, n)) && CatHeader(h, n).len == h.len + n
  {
    MarkRoomMakesRoom(h, n);
  }

  // ---------------------------------------------------------------------------
  // The free count as the Java code keeps it

  /** `sdsMarkRoomFor` as written: after growth `free` is the whole new capacity. */
  function MarkRoomAsWritten(h: Header, addLen: int): (h': Header)
  {
    if h.free >= addLen then h
    else
      var newLen := GrowTarget(h.len + addLen);
      Header(h.len, newLen, newLen, RoomType(newLen))
  }

  /** Growing a 3-byte string by one byte claims 8 free bytes in an 8-byte buffer that already holds 3. */
  lemma MarkRoomAsWrittenOverstates()
    ensures var h := Header(3, 0, 3, SDS_TYPE_5);
      && Fits(h)
      && MarkRoomAsWritten(h, 1) == Header(3, 8, 8, SDS_TYPE_8)
      && !Fits(MarkRoomAsWritten(h, 1))
  {
  }

  /** `sdsCatLen` as written: the length grows but `free` is left as it was. */
  function CatAsWritten(h: Header, n: int): (h': Header)
  {
    var g := MarkRoom(h, n);
    g.(len := g.len + n)
  }

  /**
   * Appending 2 bytes to an empty string with 3 free bytes leaves it claiming
   * 3 free bytes with 1 left; a further 3-byte append then passes the room
   * test and runs 2 bytes past the buffer.
   */
  lemma CatAsWrittenOverruns()
    ensures var h := Header(0, 3, 3, SDS_TYPE_5);
      && Fits(h)
      && CatAsWritten(h, 2) == Header(2, 3, 3, SDS_TYPE_5)
      && CatAsWritten(CatAsWritten(h, 2), 3).len == CatAsWritten(h, 2).alloc + 2
  {
  }

  /** `sdsClear` as written: the length drops to 0 but `free` is left as it was. */
  function ClearedAsWritten(h: Header): (h': Header)
  {
    h.(len := 0)
  }

  /**
   * Clearing a new 3-byte string and appending one byte replaces its 3-byte
   * buffer by a 2-byte one, although the cleared buffer had room.
   */
  lemma ClearedAsWrittenRegrows()
    ensures var h := NewHeader(3);
      && h.alloc == 3
      && MarkRoom(ClearedAsWritten(h), 1).alloc == 2
      && MarkRoom(Cleared(h), 1).alloc == 3
  {
  }

  // ---------------------------------------------------------------------------
  // The string object

  class Sds {
    /** Bytes in use. */
    var len: int
    /** Bytes free after the content. */
    var free: int
    /** Content, free bytes and the terminating zero. */
    var buf: array<bv8>
    /** The header type. */
    var kind: char

    function Hdr(): Header
      reads this, buf
    {
      Header(len, free, buf.Length - 1, kind)
    }

    /** The header fits the buffer, the content is terminated, and the buffer is a Java array. */
    ghost predicate Valid()
      reads this, buf
    {
      Fits(Hdr()) && buf[len] == 0 && buf.Length <= INT_MAX
    }

    /** The bytes of the string. */
    ghost function Content(): seq<bv8>
      reads this, buf
      requires Valid()
    {
      buf[..len]
    }

    /**
     * `sdsNewLen`: a string holding the first `initLen` bytes of `init`,
     * with no free bytes and a terminating zero. The bytes requested,
     * header included, must be an `int`.
     */
    constructor NewLen(init: seq<bv8>, initLen: int)
      requires 0 <= initLen <= |init| && NewLenBytes(initLen) <= INT_MAX
      ensures Valid() && fresh(buf)
      ensures Hdr() == NewHeader(initLen) && Content() == init[..initLen]
    {
      len, free, kind := initLen, 0, NewType(initLen);
      buf := new bv8[initLen + 1](i requires 0 <= i <= initLen => if i < initLen then init[i] else 0);
    }

    /** `sdsLen`: the number of bytes in the string. */
    function Len(): (n: int)
      reads this, buf
      requires Valid()
      ensures n == |Content()|
    {
      len
    }

    /** `sdsAvail`: bytes that can be appended without growing; they and the terminator fit after the content. */
    function Avail(): (n: int)
      reads this, buf
      requires Valid()
      ensures 0 <= n && Len() + n < buf.Length
    {
      free
    }

    /** `sdsClear`: the string becomes empty in place; the buffer is kept for reuse. */
    method Clear()
      requires Valid()
      modifies this, buf
      ensures Valid() && Hdr() == Cleared(old(Hdr())) && buf == old(buf)
      ensures buf[0] == 0 && forall i :: 1 <= i < buf.Length ==> buf[i] == old(buf[i])
    {
      len, free := 0, free + len;
      buf[0] := 0;
    }

    /**
     * `sdsMarkRoomFor`: make room for `addLen` more bytes, keeping the
     * content. When it grows, the bytes it requests, header and terminator
     * included, must be an `int`.
     */
    method MarkRoomFor(addLen: int)
      requires Valid()
      requires free < addLen ==> RoomBytes(len + addLen) <= INT_MAX
      modifies this
      ensures Valid() && Hdr() == MarkRoom(old(Hdr()), addLen) && Avail() >= addLen
      ensures Content() == old(Content())
      ensures old(free) >= addLen ==> unchanged(this)
      ensures buf == old(buf) || fresh(buf)
    {
      if free >= addLen {
        return;
      }
      var prev, used := buf, len;
      var newLen := GrowTarget(used + addLen);
      var grown := new bv8[newLen + 1](i => 0);
      for i := 0 to used + 1
        modifies grown
        invariant forall k :: 0 <= k < i ==> grown[k] == prev[k]
      {
        grown[i] := prev[i];
      }
      buf, free, kind := grown, newLen - used, RoomType(newLen);
    }

    /** `sdsCatLen`: append the first `n` bytes of `t`, growing the buffer when they do not fit. */
    method CatLen(t: seq<bv8>, n: int)
      requires Valid() && 0 <= n <= |t|
      requires free < n ==> RoomBytes(len + n) <= INT_MAX
      modifies this, buf
      ensures Valid() && Hdr() == CatHeader(old(Hdr()), n)
      ensures Content() == old(Content()) + t[..n]
    {
      ghost var before := Content();
      var curLen := len;
      MarkRoomFor(n);
      var b := buf;
      for i := 0 to n
        modifies b
        invariant b[..curLen] == before
        invariant forall k :: 0 <= k < i ==> b[curLen + k] == t[k]
      {
        b[curLen + i] := t[i];
      }
      b[curLen + n] := 0;
      len, free := curLen + n, free - n;
      assert b[..len] == before + t[..n];
    }

    /** `sdsCatSds`: append the whole of another string (or of this one). */
    method CatSds(t: Sds)
      requires Valid() && t.Valid()
      requires free < t.len ==> RoomBytes(len + t.len) <= INT_MAX
      modifies this, buf
      ensures Valid() && Hdr() == CatHeader(old(Hdr()), old(t.len))
      ensures Content() == old(Content()) + old(t.Content())
    {
      var src := t.buf[..t.len];
      CatLen(src, t.len);
    }
  }
}
