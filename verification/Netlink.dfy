/**
 Netlink attributes: the byte layout, the writer with its nests, and the reader.

 A message body is a sequence of attribute trees. `Encode` is the layout (length,
 type, payload, zero padding to four bytes), `Walk` is the reader's loop over one
 level, and `MsgBuffer` is the writer, which fills in the length of a nest only
 when the nest is ended.
 */
module Netlink {
  import opened Bits
  import opened Options

  const NESTED: nat := 0x8000
  const HDRLEN: nat := 4

  datatype Attr =
    | Leaf(ty: nat, data: seq<byte>)
    | Nest(ty: nat, items: seq<Attr>)

  /** Rounds up to a multiple of four, by mask. */
  function Align(n: nat): (r: nat)
    ensures n <= r < n + 4 && r % 4 == 0
  {
    AndMinusFour(n + 3);
    And(n + 3, -4)
  }

  lemma AndMinusFour(x: nat)
    ensures And(x, -4) == x - x % 4
  {
    AndHighMask(x, 2);
    assert Pow2(2) == 4;
  }

  function U16(n: nat): (b: seq<byte>)
    ensures |b| == 2
  {
    [n % 256, (n / 256) % 256]
  }

  function GetU16(b: seq<byte>): nat
    requires |b| >= 2
  {
    (b[0] as int) + 256 * (b[1] as int)
  }

  lemma U16RoundTrip(n: nat)
    requires n < 0x10000
    ensures GetU16(U16(n)) == n
  {
  }

  function Zeros(n: nat): (b: seq<byte>)
    ensures |b| == n
  {
    seq(n, _ => 0)
  }

  function RawType(a: Attr): nat {
    if a.Leaf? then a.ty else a.ty + NESTED
  }

  function Payload(a: Attr): seq<byte>
    decreases a, 0
  {
    match a
    case Leaf(_, data) => data
    case Nest(_, items) => EncodeAll(items)
  }

  function Encode(a: Attr): (b: seq<byte>)
    decreases a, 1
  {
    var p := Payload(a);
    U16(HDRLEN + |p|) + U16(RawType(a)) + p + Zeros(Align(|p|) - |p|)
  }

  function EncodeAll(s: seq<Attr>): (b: seq<byte>)
    decreases s, 2
  {
    if s == [] then [] else EncodeAll(s[..|s| - 1]) + Encode(s[|s| - 1])
  }

  lemma ConcatAssoc<T>(a: seq<T>, b: seq<T>, c: seq<T>)
    ensures (a + b) + c == a + (b + c)
  {
  }

  lemma EncodeNil()
    ensures EncodeAll([]) == []
  {
  }

  lemma EncodeSize(a: Attr)
    ensures |Encode(a)| == HDRLEN + Align(|Payload(a)|)
  {
  }

  /** Everything written is a multiple of four bytes, so a nest needs no padding of its own. */
  lemma {:induction false} EncodeAligned(s: seq<Attr>)
    ensures |EncodeAll(s)| % 4 == 0 && Align(|EncodeAll(s)|) == |EncodeAll(s)|
    decreases |s|
  {
    hide EncodeAll, Encode, Payload, Align;
    if s == [] {
      EncodeNil();
    } else {
      var n := |s| - 1;
      EncodeAligned(s[..n]);
      assert s == s[..n] + [s[n]];
      EncodeSnoc(s[..n], s[n]);
      EncodeSize(s[n]);
    }
  }

  lemma EncodeSnoc(s: seq<Attr>, a: Attr)
    ensures EncodeAll(s + [a]) == EncodeAll(s) + Encode(a)
  {
    assert (s + [a])[..|s|] == s;
  }

  lemma {:induction false} EncodeConcat(s: seq<Attr>, t: seq<Attr>)
    ensures EncodeAll(s + t) == EncodeAll(s) + EncodeAll(t)
    decreases |t|
  {
    hide EncodeAll, Encode;
    if t == [] {
      EncodeNil();
      assert s + t == s;
    } else {
      var n := |t| - 1;
      EncodeConcat(s, t[..n]);
      assert s + t == (s + t[..n]) + [t[n]];
      EncodeSnoc(s + t[..n], t[n]);
      assert t == t[..n] + [t[n]];
      EncodeSnoc(t[..n], t[n]);
      ConcatAssoc(EncodeAll(s), EncodeAll(t[..n]), Encode(t[n]));
    }
  }

  // ---------------------------------------------------------------- reader

  datatype Raw = Raw(rawType: nat, data: seq<byte>)

  /** Whether a whole attribute starts at the front of the remaining bytes. */
  predicate AttrOk(b: seq<byte>) {
    |b| >= HDRLEN && HDRLEN <= GetU16(b) <= |b|
  }

  /** The loop over the attributes of one level; it stops at the first bytes that are no attribute. */
  function Walk(b: seq<byte>): (attrs: seq<Raw>)
    ensures forall i :: 0 <= i < |attrs| ==> |attrs[i].data| + HDRLEN <= |b|
    decreases |b|
  {
    if !AttrOk(b) then []
    else
      var n := GetU16(b);
      var next := if Align(n) <= |b| then b[Align(n)..] else [];
      [Raw(GetU16(b[2..]), b[HDRLEN..n])] + Walk(next)
  }

  method ForEach(b: seq<byte>) returns (attrs: seq<Raw>)
    ensures attrs == Walk(b)
  {
    attrs := [];
    var pos := 0;
    while pos <= |b| && AttrOk(b[pos..])
      invariant 0 <= pos
      invariant attrs + Walk(if pos <= |b| then b[pos..] else []) == Walk(b)
      decreases |b| - pos
    {
      var rest := b[pos..];
      var n := GetU16(rest);
      attrs := attrs + [Raw(GetU16(rest[2..]), rest[HDRLEN..n])];
      pos := pos + Align(n);
      if pos <= |b| {
        assert rest[Align(n)..] == b[pos..];
      }
    }
  }

  /** Types that fit the 14 bits of an attribute type, and lengths that fit 16 bits, all the way down. */
  ghost predicate Wf(a: Attr)
    decreases a
  {
    && a.ty < 0x4000
    && HDRLEN + |Payload(a)| < 0x10000
    && (a.Nest? ==> forall i :: 0 <= i < |a.items| ==> Wf(a.items[i]))
  }

  ghost predicate WfAll(s: seq<Attr>) {
    forall i :: 0 <= i < |s| ==> Wf(s[i])
  }

  lemma WalkEncode(a: Attr, rest: seq<byte>)
    requires Wf(a)
    ensures Walk(Encode(a) + rest) == [Raw(RawType(a), Payload(a))] + Walk(rest)
  {
    hide Walk, Payload, Wf;
    WfHere(a);
    var p := Payload(a);
    var b := Encode(a) + rest;
    U16RoundTrip(HDRLEN + |p|);
    U16RoundTrip(RawType(a));
    assert b[0] == U16(HDRLEN + |p|)[0] && b[1] == U16(HDRLEN + |p|)[1];
    assert b[2..][0] == U16(RawType(a))[0] && b[2..][1] == U16(RawType(a))[1];
    assert b[HDRLEN..HDRLEN + |p|] == p;
    AlignHeader(|p|);
    EncodeSize(a);
    assert b[|Encode(a)|..] == rest;
    WalkStep(b);
  }

  lemma WfHere(a: Attr)
    requires Wf(a)
    ensures a.ty < 0x4000 && HDRLEN + |Payload(a)| < 0x10000
  {
  }

  lemma WalkStep(b: seq<byte>)
    requires AttrOk(b) && Align(GetU16(b)) <= |b|
    ensures Walk(b) == [Raw(GetU16(b[2..]), b[HDRLEN..GetU16(b)])] + Walk(b[Align(GetU16(b))..])
  {
  }

  lemma AlignHeader(n: nat)
    ensures Align(HDRLEN + n) == HDRLEN + Align(n)
  {
    hide Align;
  }

  /** What the reader sees of a level is what was written to it. */
  lemma {:induction false} WalkEncodeAll(s: seq<Attr>)
    requires WfAll(s)
    ensures Walk(EncodeAll(s)) == Raws(s)
    decreases |s|
  {
    if s != [] {
      hide Walk, Payload, Wf, Encode, EncodeAll, Raws;
      EncodeFirst(s);
      WalkEncode(s[0], EncodeAll(s[1..]));
      WalkEncodeAll(s[1..]);
      RawsFirst(s);
    }
  }

  /** What a walker sees of a level: a raw type and a payload for each attribute. */
  function Raws(s: seq<Attr>): seq<Raw> {
    seq(|s|, i requires 0 <= i < |s| => Raw(RawType(s[i]), Payload(s[i])))
  }

  lemma RawsFirst(s: seq<Attr>)
    requires s != []
    ensures Raws(s) == [Raw(RawType(s[0]), Payload(s[0]))] + Raws(s[1..])
  {
    hide Payload;
  }

  lemma EncodeFirst(s: seq<Attr>)
    requires s != []
    ensures EncodeAll(s) == Encode(s[0]) + EncodeAll(s[1..])
  {
    hide Encode;
    assert s == [s[0]] + s[1..];
    EncodeConcat([s[0]], s[1..]);
    EncodeSnoc([], s[0]);
    assert [] + [s[0]] == [s[0]];
    assert EncodeAll([]) + Encode(s[0]) == Encode(s[0]);
  }

  /** The tree read back: nests are recognised by their flag bit and read recursively. */
  function Decode(b: seq<byte>): seq<Attr>
    decreases |b|
  {
    var raws := Walk(b);
    seq(|raws|, i requires 0 <= i < |raws| =>
      if raws[i].rawType >= NESTED then Nest(raws[i].rawType - NESTED, Decode(raws[i].data))
      else Leaf(raws[i].rawType, raws[i].data))
  }

  /** Every tree written is read back unchanged. */
  lemma {:induction false} RoundTrip(s: seq<Attr>)
    requires WfAll(s)
    ensures Decode(EncodeAll(s)) == s
    decreases s
  {
    hide EncodeAll, Walk;
    WalkEncodeAll(s);
    forall i | 0 <= i < |s|
      ensures Decode(EncodeAll(s))[i] == s[i]
    {
      if s[i].Nest? {
        RoundTrip(s[i].items);
      }
    }
  }

  // ---------------------------------------------------------------- writer

  /** A level that is still being written: the message body, or a nest that is not ended yet. */
  datatype Open = Open(ty: nat, items: seq<Attr>)

  const HEAD: nat := 20

  /** The header of an open nest: its length bytes are not written yet. */
  ghost function OpenHeader(ty: nat, junk: seq<byte>, k: nat): seq<byte> {
    if k == 0 then [] else junk + U16(ty + NESTED)
  }

  ghost function Flat(open: seq<Open>, junk: seq<seq<byte>>): seq<byte>
    requires |open| == |junk|
  {
    if open == [] then []
    else
      var n := |open| - 1;
      Flat(open[..n], junk[..n]) + OpenHeader(open[n].ty, junk[n], n) + EncodeAll(open[n].items)
  }

  ghost function Size(open: seq<Open>): nat {
    if open == [] then 0
    else
      var n := |open| - 1;
      Size(open[..n]) + (if n == 0 then 0 else HDRLEN) + |EncodeAll(open[n].items)|
  }

  lemma {:induction false} FlatSize(open: seq<Open>, junk: seq<seq<byte>>)
    requires |open| == |junk| && forall k :: 0 <= k < |junk| ==> |junk[k]| == 2
    ensures |Flat(open, junk)| == Size(open)
    decreases |open|
  {
    if open != [] {
      hide EncodeAll;
      var n := |open| - 1;
      FlatSize(open[..n], junk[..n]);
    }
  }

  /** The stack with one more attribute at its innermost level. */
  ghost function Append(open: seq<Open>, a: Attr): seq<Open>
    requires open != []
  {
    var n := |open| - 1;
    open[n := Open(open[n].ty, open[n].items + [a])]
  }

  lemma FlatAppend(open: seq<Open>, junk: seq<seq<byte>>, a: Attr)
    requires |open| == |junk| && open != []
    ensures Flat(Append(open, a), junk) == Flat(open, junk) + Encode(a)
    ensures Size(Append(open, a)) == Size(open) + |Encode(a)|
  {
    hide EncodeAll, Encode, Flat, Size, OpenHeader;
    var n, next := |open| - 1, Append(open, a);
    EncodeSnoc(open[n].items, a);
    assert next[..n] == open[..n];
    FlatTop(open, junk);
    FlatTop(next, junk);
    ConcatAssoc(Flat(open[..n], junk[..n]) + OpenHeader(open[n].ty, junk[n], n), EncodeAll(open[n].items), Encode(a));
  }

  lemma FlatTop(open: seq<Open>, junk: seq<seq<byte>>)
    requires |open| == |junk| && open != []
    ensures var n := |open| - 1;
      && Flat(open, junk) == Flat(open[..n], junk[..n]) + OpenHeader(open[n].ty, junk[n], n) + EncodeAll(open[n].items)
      && Size(open) == Size(open[..n]) + (if n == 0 then 0 else HDRLEN) + |EncodeAll(open[n].items)|
  {
  }

  lemma FlatNil()
    ensures Flat([], []) == []
  {
  }

  lemma FlatPush(open: seq<Open>, junk: seq<seq<byte>>, ty: nat, j: seq<byte>)
    requires |open| == |junk| && open != []
    ensures Flat(open + [Open(ty, [])], junk + [j]) == Flat(open, junk) + (j + U16(ty + NESTED))
    ensures Size(open + [Open(ty, [])]) == Size(open) + HDRLEN
  {
    hide EncodeAll, Flat, Size, U16;
    var o, js := open + [Open(ty, [])], junk + [j];
    assert o[..|open|] == open && js[..|open|] == junk;
    FlatTop(o, js);
    EncodeNil();
    var b := Flat(open, junk) + (j + U16(ty + NESTED));
    assert b + [] == b;
  }

  lemma FlatPop(open: seq<Open>, junk: seq<seq<byte>>)
    requires |open| == |junk| && |open| >= 2
    ensures var n := |open| - 1;
      && Flat(open, junk) == Flat(open[..n], junk[..n]) +
        (junk[n] + U16(open[n].ty + NESTED) + EncodeAll(open[n].items))
      && Size(open) == Size(open[..n]) + HDRLEN + |EncodeAll(open[n].items)|
  {
    hide EncodeAll, Flat, Size;
    var n := |open| - 1;
    FlatTop(open, junk);
    ConcatAssoc(Flat(open[..n], junk[..n]), junk[n] + U16(open[n].ty + NESTED), EncodeAll(open[n].items));
  }

  class MsgBuffer {
    const buf: array<byte>
    var len: nat
    ghost var open: seq<Open>
    ghost var junk: seq<seq<byte>>

    ghost predicate Valid()
      reads this, buf
    {
      && HEAD <= len == HEAD + Size(open) <= buf.Length < 0x10000
      && |open| == |junk| >= 1 && (forall k :: 0 <= k < |junk| ==> |junk[k]| == 2)
      && buf[HEAD..len] == Flat(open, junk)
    }

    /** Where the innermost open nest starts. */
    ghost function TopStart(): nat
      reads this
      requires |open| >= 1
    {
      HEAD + Size(open[..|open| - 1])
    }

    /** An empty message: netlink and generic netlink headers only. */
    constructor (size: nat)
      requires HEAD <= size < 0x10000
      ensures Valid() && fresh(buf) && buf.Length == size && open == [Open(0, [])]
    {
      buf := new byte[size];
      len := HEAD;
      open := [Open(0, [])];
      junk := [[0, 0]];
    }

    /** Starts the next message in the same buffer. */
    method Prepare()
      requires HEAD <= buf.Length < 0x10000
      modifies this
      ensures Valid() && open == [Open(0, [])] && len == HEAD
    {
      len := HEAD;
      open := [Open(0, [])];
      junk := [[0, 0]];
    }

    /** With no nest open, the bytes behind the headers are the attributes of the message. */
    lemma Finished()
      requires Valid() && |open| == 1
      ensures buf[..len][HEAD..] == EncodeAll(open[0].items)
    {
      hide EncodeAll;
      FlatTop(open, junk);
      FlatNil();
      assert buf[..len][HEAD..] == buf[HEAD..len];
    }

    /** memcpy into the buffer. */
    method Write(pos: nat, data: seq<byte>)
      requires pos + |data| <= buf.Length
      modifies buf
      ensures buf[..pos] == old(buf[..pos]) && buf[pos..pos + |data|] == data
      ensures buf[pos + |data|..] == old(buf[pos + |data|..])
    {
      for k := 0 to |data|
        invariant forall i :: 0 <= i < buf.Length && !(pos <= i < pos + k) ==> buf[i] == old(buf[i])
        invariant forall i :: 0 <= i < k ==> buf[pos + i] == data[i]
      {
        buf[pos + k] := data[k];
      }
    }

    /** Header, payload and zero padding at the tail. */
    method Put(ty: nat, data: seq<byte>)
      requires Valid() && len + HDRLEN + Align(|data|) <= buf.Length
      modifies this, buf
      ensures Valid() && open == Append(old(open), Leaf(ty, data)) && len == old(len) + HDRLEN + Align(|data|)
      ensures buf[..old(len)] == old(buf[..len])
    {
      hide Flat, Size, EncodeAll, Align, Append, U16, Zeros;
      ghost var a := Leaf(ty, data);
      FlatAppend(open, junk, a);
      AppendShape(open, a);
      AlignHeader(|data|);
      var pad := Align(|data|) - |data|;
      var bytes := U16(HDRLEN + |data|) + U16(ty) + data + Zeros(pad);
      ghost var before := buf[HEAD..len];
      Write(len, bytes);
      SplitTail(buf, len, |bytes|, before, bytes);
      len := len + Align(HDRLEN + |data|);
      open := Append(open, a);
    }

    /** Put, unless the message would outgrow the buffer. */
    method PutCheck(ty: nat, data: seq<byte>) returns (ok: bool)
      requires Valid()
      modifies this, buf
      ensures Valid() && ok == (old(len) + HDRLEN + Align(|data|) <= buf.Length)
      ensures open == if ok then Append(old(open), Leaf(ty, data)) else old(open)
      ensures len == if ok then old(len) + HDRLEN + Align(|data|) else old(len)
      ensures buf[..old(len)] == old(buf[..len])
    {
      hide Flat, Size, Align, Append;
      if len + HDRLEN + Align(|data|) > buf.Length {
        return false;
      }
      Put(ty, data);
      return true;
    }

    /** Opens a nest: the type is written now, the length when the nest is ended. */
    method NestStart(ty: nat) returns (start: nat)
      requires Valid() && len + HDRLEN <= buf.Length && ty < NESTED
      modifies this, buf
      ensures Valid() && open == old(open) + [Open(ty, [])] && start == old(len) == TopStart()
      ensures len == old(len) + HDRLEN && buf[..old(len)] == old(buf[..len])
    {
      hide Flat, Size, EncodeAll, U16, Or;
      start := len;
      ghost var before, j := buf[HEAD..len], buf[len..len + 2];
      FlatPush(open, junk, ty, j);
      NestedType(ty);
      var bytes := U16(Or(NESTED, ty));
      ghost var kept := buf[..len + 2];
      Write(len + 2, bytes);
      assert buf[..len] == kept[..len];
      assert buf[..len + 2][HEAD..] == before + j;
      SplitTail(buf, len + 2, 2, before + j, bytes);
      ConcatAssoc(before, j, bytes);
      ghost var o := open;
      len := len + HDRLEN;
      open, junk := open + [Open(ty, [])], junk + [j];
      assert open[..|open| - 1] == o;
    }

    method NestStartCheck(ty: nat) returns (start: Option<nat>)
      requires Valid() && ty < NESTED
      modifies this, buf
      ensures Valid() && start.Some? == (old(len) + HDRLEN <= buf.Length)
      ensures start.Some? ==> open == old(open) + [Open(ty, [])] && start.value == old(len) == TopStart()
      ensures start.Some? ==> len == old(len) + HDRLEN
      ensures start.None? ==> open == old(open) && len == old(len)
      ensures buf[..old(len)] == old(buf[..len])
    {
      hide Flat, Size;
      if len + HDRLEN > buf.Length {
        return None;
      }
      var p := NestStart(ty);
      return Some(p);
    }

    /** Ends the innermost nest by writing its length. */
    method NestEnd(start: nat)
      requires Valid() && |open| >= 2 && start == TopStart()
      modifies this, buf
      ensures Valid() && len == old(len)
      ensures var n := |old(open)| - 1;
        open == Append(old(open)[..n], Nest(old(open)[n].ty, old(open)[n].items))
      ensures start <= len && buf[..start] == old(buf[..start])
    {
      hide Flat, Size, EncodeAll, U16, Append;
      ghost var n := |open| - 1;
      ghost var top, below, jb := open[n], open[..n], junk[..n];
      ghost var a := Nest(top.ty, top.items);
      FlatPop(open, junk);
      FlatSize(below, jb);
      FlatAppend(below, jb, a);
      AppendShape(below, a);
      NestBytes(top);
      ghost var whole, rest := buf[HEAD..len], U16(top.ty + NESTED) + EncodeAll(top.items);
      ghost var first := Flat(below, jb);
      NestSplit(whole, first, junk[n], rest, U16(top.ty + NESTED), EncodeAll(top.items));
      var bytes := U16(len - start);
      assert buf[HEAD..start] == first && buf[start + 2..len] == rest;
      Write(start, bytes);
      assert buf[..start][HEAD..] == first;
      assert buf[start + 2..][..len - start - 2] == rest;
      NestJoin(buf, start, len, first, bytes, rest);
      open, junk := Append(below, a), jb;
    }

    /** Drops the innermost nest: the message is what it was before the nest was started. */
    method NestCancel(start: nat)
      requires Valid() && |open| >= 2 && start == TopStart()
      modifies this
      ensures Valid() && len == start && open == old(open)[..|old(open)| - 1]
      ensures buf[..len] == old(buf[..start])
    {
      hide Flat, Size, EncodeAll, U16;
      ghost var n, whole := |open| - 1, buf[HEAD..len];
      FlatPop(open, junk);
      FlatSize(open[..n], junk[..n]);
      ghost var first := Flat(open[..n], junk[..n]);
      assert HEAD <= start <= len && |first| == start - HEAD;
      assert whole[..start - HEAD] == first;
      assert buf[HEAD..start] == whole[..start - HEAD];
      len := len - (len - start);
      open, junk := open[..n], junk[..n];
    }
  }

  /** What may be written into an open nest. */
  datatype Write = PutAttr(ty: nat, data: seq<byte>) | StartNest(ty: nat) | EndNest | CancelNest

  /** Where the n-th nest from the outside starts. */
  ghost function StartAt(open: seq<Open>, n: nat): nat
    requires n <= |open|
  {
    HEAD + Size(open[..n])
  }

  /** `starts` are the nests opened above `below`, from the outermost on. */
  ghost predicate Nested(open: seq<Open>, below: seq<Open>, starts: seq<nat>) {
    && |open| == |below| + |starts| && |starts| >= 1 && open[..|below|] == below
    && forall k :: 0 <= k < |starts| ==> starts[k] == StartAt(open, |below| + k)
  }

  /** Changes to the innermost nest only, possibly after closing some: the nests start where they did. */
  lemma NestedStill(was: seq<Open>, now: seq<Open>, below: seq<Open>, starts: seq<nat>, left: nat)
    requires Nested(was, below, starts) && 1 <= left <= |starts| && |now| == |below| + left
    requires was[..|now| - 1] == now[..|now| - 1]
    ensures Nested(now, below, starts[..left])
  {
    hide Size;
    var n := |now| - 1;
    assert now[..|below|] == now[..n][..|below|] && was[..|below|] == was[..n][..|below|];
    forall k | 0 <= k < left
      ensures starts[..left][k] == StartAt(now, |below| + k)
    {
      assert starts[..left][k] == starts[k];
      assert now[..|below| + k] == now[..n][..|below| + k] && was[..|below| + k] == was[..n][..|below| + k];
    }
  }

  lemma NestedPush(was: seq<Open>, ty: nat, below: seq<Open>, starts: seq<nat>, start: nat)
    requires Nested(was, below, starts) && start == StartAt(was, |was|)
    ensures Nested(was + [Open(ty, [])], below, starts + [start])
  {
    hide Size;
    var now, more := was + [Open(ty, [])], starts + [start];
    assert now[..|below|] == was[..|below|];
    forall k | 0 <= k < |more|
      ensures more[k] == StartAt(now, |below| + k)
    {
      assert now[..|below| + k] == was[..|below| + k];
    }
  }

  lemma {:induction false} SizeGrows(open: seq<Open>, n: nat)
    requires n <= |open|
    ensures Size(open[..n]) <= Size(open)
    decreases |open|
  {
    hide EncodeAll;
    if n == |open| {
      assert open[..n] == open;
    } else {
      SizeGrows(open[..|open| - 1], n);
      assert open[..|open| - 1][..n] == open[..n];
    }
  }

  /** The nests start one after the other, inside the message. */
  lemma StartsGrow(m: MsgBuffer, below: seq<Open>, starts: seq<nat>, k: nat)
    requires m.Valid() && Nested(m.open, below, starts) && k < |starts|
    ensures starts[0] <= starts[k] <= m.len <= m.buf.Length && starts[|starts| - 1] == m.TopStart()
  {
    hide Size, Flat;
    var n := |below| + k;
    SizeGrows(m.open[..n], |below|);
    assert m.open[..n][..|below|] == m.open[..|below|];
    SizeGrows(m.open, n);
    assert starts[0] == StartAt(m.open, |below| + 0) && starts[k] == StartAt(m.open, n);
  }

  /** One write inside the outermost of these nests; what does not fit or does not apply is not done. */
  method DoWrite(m: MsgBuffer, w: Write, starts: seq<nat>, ghost below: seq<Open>) returns (starts': seq<nat>)
    requires m.Valid() && Nested(m.open, below, starts)
    modifies m, m.buf
    ensures m.Valid() && Nested(m.open, below, starts') && starts'[0] == starts[0] <= m.len
    ensures m.buf[..starts[0]] == old(m.buf[..starts[0]])
  {
    hide Flat, Size, Append, StartAt;
    starts' := starts;
    StartsGrow(m, below, starts, |starts| - 1);
    ghost var was, kept, len := m.open, m.buf[..starts[0]], m.len;
    assert m.buf[..len][..starts[0]] == kept && starts[..|starts|] == starts;
    match w {
      case PutAttr(ty, data) =>
        var ok := m.PutCheck(ty, data);
        AppendBelow(was, Leaf(ty, data));
        NestedStill(was, m.open, below, starts, |starts|);
        assert m.buf[..starts[0]] == m.buf[..len][..starts[0]];
      case StartNest(ty) =>
        if ty < NESTED {
          var start := m.NestStartCheck(ty);
          if start.Some? {
            EndIs(was, len);
            NestedPush(was, ty, below, starts, start.value);
            starts' := starts + [start.value];
          }
          assert m.buf[..starts[0]] == m.buf[..len][..starts[0]];
        }
      case EndNest =>
        starts' := LeaveNest(m, true, starts, below);
      case CancelNest =>
        starts' := LeaveNest(m, false, starts, below);
    }
  }

  lemma EndIs(open: seq<Open>, len: nat)
    requires len == HEAD + Size(open)
    ensures StartAt(open, |open|) == len
  {
    assert open[..|open|] == open;
  }

  lemma AppendBelow(open: seq<Open>, a: Attr)
    requires open != []
    ensures |Append(open, a)| == |open| && Append(open, a)[..|open| - 1] == open[..|open| - 1]
  {
  }

  /** Ends or cancels the innermost nest, unless it is the only one. */
  method LeaveNest(m: MsgBuffer, end: bool, starts: seq<nat>, ghost below: seq<Open>) returns (starts': seq<nat>)
    requires m.Valid() && Nested(m.open, below, starts)
    modifies m, m.buf
    ensures m.Valid() && Nested(m.open, below, starts') && starts'[0] == starts[0] <= m.len
    ensures starts' == if |starts| == 1 then starts else starts[..|starts| - 1]
    ensures m.buf[..starts[0]] == old(m.buf[..starts[0]])
  {
    hide Flat, Size, Append, StartAt;
    var top := |starts| - 1;
    StartsGrow(m, below, starts, top);
    if top == 0 {
      return starts;
    }
    ghost var was, kept := m.open, m.buf[..starts[top]];
    ghost var shorter := was[..|was| - 1];
    assert kept[..starts[0]] == m.buf[..starts[0]] && shorter[..|was| - 2] == was[..|was| - 2];
    if end {
      m.NestEnd(starts[top]);
      AppendBelow(shorter, Nest(was[|was| - 1].ty, was[|was| - 1].items));
    } else {
      m.NestCancel(starts[top]);
    }
    assert m.buf[..starts[0]] == m.buf[..|kept|][..starts[0]];
    NestedStill(was, m.open, below, starts, top);
    starts' := starts[..top];
  }

  /** Opening a nest, any writes, then cancelling it: the message is, byte for byte, what it was before. */
  method Abandoned(m: MsgBuffer, ty: nat, writes: seq<Write>)
    requires m.Valid() && ty < NESTED && m.len + HDRLEN <= m.buf.Length
    modifies m, m.buf
    ensures m.Valid() && m.len == old(m.len) && m.open == old(m.open) && m.buf[..m.len] == old(m.buf[..m.len])
  {
    hide Flat, Size;
    ghost var below := m.open;
    var start := m.NestStart(ty);
    var starts := [start];
    assert m.open[..|below|] == below;
    for i := 0 to |writes|
      invariant m.Valid() && Nested(m.open, below, starts) && starts[0] == start == old(m.len) <= m.len
      invariant m.buf[..start] == old(m.buf[..m.len])
    {
      starts := DoWrite(m, writes[i], starts, below);
    }
    while |starts| > 1
      invariant m.Valid() && Nested(m.open, below, starts) && starts[0] == start == old(m.len) <= m.len
      invariant m.buf[..start] == old(m.buf[..m.len])
      decreases |starts|
    {
      starts := LeaveNest(m, false, starts, below);
    }
    StartsGrow(m, below, starts, 0);
    m.NestCancel(start);
  }

  lemma AppendShape(open: seq<Open>, a: Attr)
    requires open != []
    ensures |Append(open, a)| == |open|
  {
  }

  lemma SplitTail(buf: array<byte>, len: nat, n: nat, before: seq<byte>, bytes: seq<byte>)
    requires HEAD <= len && len + n <= buf.Length && |before| == len - HEAD
    requires buf[..len][HEAD..] == before && buf[len..len + n] == bytes
    ensures buf[HEAD..len + n] == before + bytes
  {
    assert buf[HEAD..len + n] == buf[HEAD..len] + buf[len..len + n];
  }

  /** Or-ing the nest flag into a type below it is an addition. */
  lemma NestedType(ty: nat)
    requires ty < NESTED
    ensures Or(NESTED, ty) == ty + NESTED
  {
    assert Pow2(15) == 0x8000 by {
      assert Pow2(5) == 32;
      Pow2Split(5, 5);
      Pow2Split(10, 5);
    }
    OrDisjoint(ty, 1, 15);
  }

  lemma NestBytes(top: Open)
    ensures Encode(Nest(top.ty, top.items))
            == U16(HDRLEN + |EncodeAll(top.items)|) + (U16(top.ty + NESTED) + EncodeAll(top.items))
    ensures |U16(top.ty + NESTED)| == 2
  {
    hide EncodeAll, U16;
    EncodeAligned(top.items);
    assert Zeros(0) == [];
  }

  lemma NestSplit(whole: seq<byte>, first: seq<byte>, j: seq<byte>, rest: seq<byte>, ty: seq<byte>, items: seq<byte>)
    requires whole == first + (j + ty + items) && rest == ty + items && |j| == 2
    ensures whole[..|first|] == first && whole[|first| + 2..] == rest
  {
  }

  lemma NestJoin(buf: array<byte>, start: nat, len: nat, first: seq<byte>, bytes: seq<byte>, rest: seq<byte>)
    requires HEAD <= start && start + 2 <= len <= buf.Length && |bytes| == 2
    requires buf[..start][HEAD..] == first && buf[start..start + 2] == bytes &&
      buf[start + 2..][..len - start - 2] == rest
    ensures buf[HEAD..len] == first + (bytes + rest)
  {
    assert buf[HEAD..len] == buf[HEAD..start] + (buf[start..start + 2] + buf[start + 2..len]);
  }

  /** Attribute types that leave room for the flag bits, all the way down. */
  ghost predicate TypesOk(a: Attr)
    decreases a
  {
    a.ty < 0x4000 && (a.Nest? ==> forall i :: 0 <= i < |a.items| ==> TypesOk(a.items[i]))
  }

  lemma {:induction false} EncodeAllContains(s: seq<Attr>, i: nat)
    requires i < |s|
    ensures |Encode(s[i])| <= |EncodeAll(s)|
    decreases |s|
  {
    hide Encode;
    if i < |s| - 1 {
      EncodeAllContains(s[..|s| - 1], i);
    }
  }

  /** Whatever fits a message has lengths that fit their 16-bit fields. */
  lemma {:induction false} WfFromSize(s: seq<Attr>)
    requires |EncodeAll(s)| < 0x10000 && forall i :: 0 <= i < |s| ==> TypesOk(s[i])
    ensures WfAll(s)
    decreases s
  {
    hide EncodeAll, Encode;
    forall i | 0 <= i < |s|
      ensures Wf(s[i])
    {
      EncodeAllContains(s, i);
      EncodeSize(s[i]);
      if s[i].Nest? {
        assert Payload(s[i]) == EncodeAll(s[i].items);
        WfFromSize(s[i].items);
      }
    }
  }
}
