/**
 * The frame protocol | SOM | LEN | TYPE | PAYLOAD | CRC |: what the resynchronising parser takes out
 * of a byte stream, however the stream is cut into chunks, and when the bounded receive buffer
 * behaves like an unbounded one.
 */
module Frames {
  import opened Bytes
  import opened Crc8

  const SOM: Byte := 0xAA
  /** sizeof(rx_buffer) */
  const RX_BUFFER := 255
  const RX_CHUNK := 64
  /** sizeof(km_coms_msg.payload) */
  const MAX_PAYLOAD := 251

  datatype ComsMsg = ComsMsg(typ: Byte, payload: seq<Byte>)

  // ----- The parser

  /** Length of the frame that starts s, SOM and CRC included. */
  function FrameLength(s: seq<Byte>): (n: nat)
    requires |s| >= 2
    ensures 4 <= n <= 259
  {
    4 + s[1] as int
  }

  /** The message of the frame that starts s, if its checksum is right. */
  function First(s: seq<Byte>): (msgs: seq<ComsMsg>)
    requires |s| >= 4 && |s| >= FrameLength(s)
    ensures forall k :: 0 <= k < |msgs| ==> |msgs[k].payload| + 4 <= |s|
  {
    var payload := s[3..FrameLength(s) - 1];
    if Crc(s[1], s[2], payload) == s[FrameLength(s) - 1] then [ComsMsg(s[2], payload)] else []
  }

  /** Messages dispatched from s, and the bytes kept for the next call. */
  function Parse(s: seq<Byte>): (r: (seq<ComsMsg>, seq<Byte>))
    ensures |r.1| <= |s|
    ensures forall k :: 0 <= k < |r.0| ==> |r.0[k].payload| + 4 <= |s|
  {
    if |s| < 4 then ([], s)
    else if s[0] != SOM then Parse(s[1..])
    else if |s| < FrameLength(s) then ([], s)
    else
      var (msgs, residue) := Parse(s[FrameLength(s)..]);
      (First(s) + msgs, residue)
  }

  lemma ParseStep(s: seq<Byte>)
    ensures |s| < 4 || (s[0] == SOM && |s| < FrameLength(s)) ==> Parse(s).0 == [] && Parse(s).1 == s
    ensures |s| >= 4 && s[0] != SOM ==> Parse(s) == Parse(s[1..])
    ensures |s| >= 4 && s[0] == SOM && |s| >= FrameLength(s) ==>
              && Parse(s).0 == First(s) + Parse(s[FrameLength(s)..]).0
              && Parse(s).1 == Parse(s[FrameLength(s)..]).1
  {
    hide First;
  }

  lemma ParseNothing()
    ensures Parse([]) == ([], [])
  {
  }

  lemma FirstExtends(a: seq<Byte>, b: seq<Byte>)
    requires |a| >= 4 && |a| >= FrameLength(a)
    ensures FrameLength(a + b) == FrameLength(a) && First(a + b) == First(a)
  {
    assert (a + b)[3..FrameLength(a) - 1] == a[3..FrameLength(a) - 1];
  }

  /** Parsing a stream in two pieces, keeping the residue in between, is parsing it whole. */
  lemma {:induction false} ParseInPieces(a: seq<Byte>, b: seq<Byte>)
    ensures Parse(a + b).0 == Parse(a).0 + Parse(Parse(a).1 + b).0
    ensures Parse(a + b).1 == Parse(Parse(a).1 + b).1
  {
    hide Parse, First;
    ParseStep(a);
    if |a| < 4 || (a[0] == SOM && |a| < FrameLength(a)) {
      assert [] + Parse(a + b).0 == Parse(a + b).0;
    } else if a[0] != SOM {
      ParseStep(a + b);
      assert (a + b)[1..] == a[1..] + b;
      ParseInPieces(a[1..], b);
    } else {
      ParseStep(a + b);
      var rest := a[FrameLength(a)..];
      FirstExtends(a, b);
      assert (a + b)[FrameLength(a)..] == rest + b;
      ParseInPieces(rest, b);
    }
  }

  // ----- What is put on the wire

  /** A wire carries frames, intact or damaged behind their LEN, and stray bytes that are not SOM. */
  datatype Item = Noise(b: Byte) | Frame(typ: Byte, payload: seq<Byte>, crc: Byte)

  predicate Legal(item: Item, maxPayload: nat) {
    match item
    case Noise(b) => b != SOM
    case Frame(_, payload, _) => |payload| <= maxPayload
  }

  predicate AllLegal(items: seq<Item>, maxPayload: nat) {
    forall k :: 0 <= k < |items| ==> Legal(items[k], maxPayload)
  }

  predicate Intact(item: Item)
    requires Legal(item, 255)
  {
    item.Frame? && item.crc == Crc(|item.payload|, item.typ, item.payload)
  }

  function ItemBytes(item: Item): (s: seq<Byte>)
    requires Legal(item, 255)
    ensures |s| == if item.Noise? then 1 else 4 + |item.payload|
  {
    match item
    case Noise(b) => [b]
    case Frame(typ, payload, crc) => [SOM, |payload|, typ] + payload + [crc]
  }

  function Wire(items: seq<Item>): seq<Byte>
    requires AllLegal(items, 255)
  {
    if items == [] then [] else ItemBytes(items[0]) + Wire(items[1..])
  }

  /** The message of an intact frame. */
  function Dispatched(item: Item): seq<ComsMsg>
    requires Legal(item, 255)
  {
    if Intact(item) then [ComsMsg(item.typ, item.payload)] else []
  }

  /** The messages of the intact frames, in order. */
  function Intended(items: seq<Item>): seq<ComsMsg>
    requires AllLegal(items, 255)
  {
    if items == [] then []
    else Dispatched(items[0]) + Intended(items[1..])
  }

  lemma {:induction false} IntendedConcat(a: seq<Item>, b: seq<Item>)
    requires AllLegal(a, 255) && AllLegal(b, 255)
    ensures AllLegal(a + b, 255) && Intended(a + b) == Intended(a) + Intended(b)
  {
    hide Dispatched, Legal;
    if a == [] {
      assert a + b == b;
    } else {
      assert (a + b)[1..] == a[1..] + b && (a + b)[0] == a[0];
      IntendedConcat(a[1..], b);
      var now := Dispatched(a[0]);
      assert now + (Intended(a[1..]) + Intended(b)) == now + Intended(a[1..]) + Intended(b);
    }
  }

  lemma {:induction false} ShortWire(items: seq<Item>)
    requires AllLegal(items, 255) && |Wire(items)| < 4
    ensures Intended(items) == []
  {
    if items == [] {
    } else {
      ShortWire(items[1..]);
    }
  }

  /** What the parser finds at the start of a frame. */
  lemma FrameIs(item: Item, tail: seq<Byte>)
    requires Legal(item, 255) && item.Frame?
    ensures var s := ItemBytes(item) + tail;
            && s[0] == SOM && FrameLength(s) == |ItemBytes(item)| && s[FrameLength(s)..] == tail
            && First(s) == Dispatched(item)
  {
    hide Crc;
    var s := ItemBytes(item) + tail;
    var total := 4 + |item.payload|;
    assert s[total..] == tail && s[3..total - 1] == item.payload && s[total - 1] == item.crc;
  }

  lemma ParseFrame(item: Item, tail: seq<Byte>)
    requires Legal(item, 255) && item.Frame?
    ensures Parse(ItemBytes(item) + tail).0 == Dispatched(item) + Parse(tail).0
    ensures Parse(ItemBytes(item) + tail).1 == Parse(tail).1
  {
    hide Parse, First, Crc, Dispatched, FrameLength, ItemBytes;
    FrameIs(item, tail);
    ParseStep(ItemBytes(item) + tail);
  }

  lemma ParseNoise(item: Item, tail: seq<Byte>)
    requires Legal(item, 255) && item.Noise?
    ensures Dispatched(item) == []
    ensures |tail| >= 3 ==> Parse(ItemBytes(item) + tail) == Parse(tail)
  {
    var s := ItemBytes(item) + tail;
    assert s[1..] == tail;
    ParseStep(s);
    hide Parse;
  }

  /** The parser dispatches exactly the intact frames: noise is skipped, a damaged frame costs only itself. */
  lemma {:induction false} ParseWire(items: seq<Item>)
    requires AllLegal(items, 255)
    ensures Parse(Wire(items)).0 == Intended(items)
  {
    hide Parse, Dispatched, ItemBytes;
    ParseNothing();
    if items == [] {
    } else {
      var rest := items[1..];
      ParseWire(rest);
      if items[0].Frame? {
        ParseFrame(items[0], Wire(rest));
      } else {
        ParseNoise(items[0], Wire(rest));
        if |Wire(items)| < 4 {
          ParseStep(Wire(items));
          ShortWire(items);
        }
      }
    }
  }

  /** However a wire is cut short, the parser keeps less than one longest frame of it. */
  lemma {:induction false} ResidueBound(items: seq<Item>, maxPayload: nat, p: seq<Byte>)
    requires maxPayload <= 255 && AllLegal(items, maxPayload)
    requires AllLegal(items, 255) && p <= Wire(items)
    ensures |Parse(p).1| <= maxPayload + 3
  {
    hide Dispatched, First;
    if |p| >= 4 {
      var head, rest := ItemBytes(items[0]), items[1..];
      if |p| >= |head| {
        var p' := p[|head|..];
        assert p == head + p' && p' <= Wire(rest);
        ResidueBound(rest, maxPayload, p');
        if items[0].Frame? {
          ParseFrame(items[0], p');
        }
      } else {
        assert p[0] == SOM && p[1] == |items[0].payload|;
      }
    }
  }

  // ----- The bounded buffer

  /** Appending a chunk, or starting over with it when it does not fit. */
  function Accept(buffer: seq<Byte>, chunk: seq<Byte>): seq<Byte> {
    if |buffer| + |chunk| > RX_BUFFER then chunk else buffer + chunk
  }

  /** Receive and process, once per chunk: the messages dispatched and the bytes left in the buffer. */
  function Run(buffer: seq<Byte>, chunks: seq<seq<Byte>>): (seq<ComsMsg>, seq<Byte>)
    decreases chunks
  {
    if chunks == [] then ([], buffer)
    else
      var (now, residue) := Parse(Accept(buffer, chunks[0]));
      var (later, left) := Run(residue, chunks[1..]);
      (now + later, left)
  }

  function Concat(chunks: seq<seq<Byte>>): seq<Byte> {
    if chunks == [] then [] else chunks[0] + Concat(chunks[1..])
  }

  predicate Chunked(chunks: seq<seq<Byte>>) {
    forall k :: 0 <= k < |chunks| ==> |chunks[k]| <= RX_CHUNK
  }

  /** Every stream can be delivered in such chunks; this is how a fast sender's arrives. */
  function InChunks(s: seq<Byte>): (chunks: seq<seq<Byte>>)
    ensures Chunked(chunks) && Concat(chunks) == s
  {
    if s == [] then []
    else if |s| <= RX_CHUNK then
      assert [s][1..] == [];
      [s]
    else
      var rest := InChunks(s[RX_CHUNK..]);
      assert ([s[..RX_CHUNK]] + rest)[1..] == rest;
      [s[..RX_CHUNK]] + rest
  }

  /** Whatever arrives, the buffer never overflows and no dispatched payload overflows its array. */
  lemma {:induction false} RunBounds(buffer: seq<Byte>, chunks: seq<seq<Byte>>)
    requires |buffer| <= RX_BUFFER && Chunked(chunks)
    ensures |Run(buffer, chunks).1| <= RX_BUFFER
    ensures forall k :: 0 <= k < |Run(buffer, chunks).0| ==> |Run(buffer, chunks).0[k].payload| <= MAX_PAYLOAD
    decreases chunks
  {
    if chunks == [] {
    } else {
      RunBounds(Parse(Accept(buffer, chunks[0])).1, chunks[1..]);
    }
  }

  /** Longest payload whose frames can never be lost to the overflow reset. */
  const SAFE_PAYLOAD := 188

  /** With payloads up to 188 bytes the bounded receiver is the unbounded parser, for any chunking. */
  lemma {:induction false} RunIsParse(items: seq<Item>, done: seq<Byte>, chunks: seq<seq<Byte>>)
    requires AllLegal(items, SAFE_PAYLOAD) && AllLegal(items, 255)
    requires Chunked(chunks) && done + Concat(chunks) <= Wire(items)
    ensures Run(Parse(done).1, chunks).0 == Parse(Parse(done).1 + Concat(chunks)).0
    ensures Run(Parse(done).1, chunks).1 == Parse(Parse(done).1 + Concat(chunks)).1
    decreases chunks
  {
    hide Parse, Wire, AllLegal;
    var buffer := Parse(done).1;
    ResidueBound(items, SAFE_PAYLOAD, done);
    if chunks == [] {
      ParseInPieces(done, []);
      assert done + [] == done && buffer + [] == buffer;
    } else {
      var chunk, rest := chunks[0], Concat(chunks[1..]);
      assert Accept(buffer, chunk) == buffer + chunk;
      assert done + (chunk + rest) == done + chunk + rest;
      RunIsParse(items, done + chunk, chunks[1..]);
      ParseInPieces(done, chunk);
      ParseInPieces(buffer + chunk, rest);
      assert buffer + chunk + rest == buffer + (chunk + rest);
    }
  }

  lemma {:induction false} ConcatPrefix(chunks: seq<seq<Byte>>, k: nat)
    requires k <= |chunks|
    ensures Concat(chunks[..k]) <= Concat(chunks)
    ensures k < |chunks| ==> Concat(chunks[..k]) + chunks[k] <= Concat(chunks)
  {
    if k == 0 {
    } else {
      ConcatPrefix(chunks[1..], k - 1);
      assert chunks[..k][1..] == chunks[1..][..k - 1];
    }
  }

  /** On such a wire the bytes kept never exceed 191, so every chunk fits and the buffer is never reset. */
  lemma NeverReset(items: seq<Item>, chunks: seq<seq<Byte>>, k: nat)
    requires AllLegal(items, SAFE_PAYLOAD) && AllLegal(items, 255)
    requires Chunked(chunks) && Concat(chunks) <= Wire(items) && k < |chunks|
    ensures |Run([], chunks[..k]).1| <= SAFE_PAYLOAD + 3
    ensures Accept(Run([], chunks[..k]).1, chunks[k]) == Run([], chunks[..k]).1 + chunks[k]
  {
    hide Parse, Wire, AllLegal;
    var done := Concat(chunks[..k]);
    ConcatPrefix(chunks, k);
    assert [] + done == done;
    RunIsParse(items, [], chunks[..k]);
    ParseNothing();
    ResidueBound(items, SAFE_PAYLOAD, done);
    assert |chunks[k]| <= RX_CHUNK;
  }

  /**
   * Delivery: a wire of frames with payloads up to 188 bytes, damaged frames and noise, cut into any
   * chunks the receiver reads, dispatches exactly the intact frames in order.
   */
  lemma Delivery(items: seq<Item>, chunks: seq<seq<Byte>>)
    requires AllLegal(items, SAFE_PAYLOAD) && AllLegal(items, 255)
    requires Chunked(chunks) && Wire(items) == Concat(chunks)
    ensures Run([], chunks).0 == Intended(items)
  {
    assert [] + Concat(chunks) == Concat(chunks);
    RunIsParse(items, [], chunks);
    ParseWire(items);
  }

  /** 256 bytes as they arrive in full chunks. */
  function FullChunks(w: seq<Byte>): (chunks: seq<seq<Byte>>)
    requires |w| == 4 * RX_CHUNK
    ensures Chunked(chunks)
  {
    [w[..64], w[64..128], w[128..192], w[192..]]
  }

  lemma ConcatCons(c: seq<Byte>, rest: seq<seq<Byte>>)
    ensures Concat([c] + rest) == c + Concat(rest) && Concat([]) == []
  {
    assert ([c] + rest)[1..] == rest;
  }

  lemma FullChunksWhole(w: seq<Byte>)
    requires |w| == 4 * RX_CHUNK
    ensures Concat(FullChunks(w)) == w
  {
    var c0, c1, c2, c3 := w[..64], w[64..128], w[128..192], w[192..];
    assert FullChunks(w) == [c0] + ([c1] + ([c2] + ([c3] + [])));
    ConcatCons(c3, []);
    ConcatCons(c2, [c3] + []);
    ConcatCons(c1, [c2] + ([c3] + []));
    ConcatCons(c0, [c1] + ([c2] + ([c3] + [])));
    hide Concat, FullChunks;
    assert w == c0 + (c1 + (c2 + (c3 + [])));
  }

  lemma Stuck(w: seq<Byte>, n: nat)
    requires |w| >= 192 >= n >= 4 && w[0] == SOM && w[1] == 189
    ensures Parse(w[..n]) == ([], w[..n])
  {
  }

  /** While the long frame is incomplete a chunk only adds to the buffer. */
  lemma Waits(w: seq<Byte>, a: nat, b: nat, rest: seq<seq<Byte>>)
    requires |w| >= 192 >= b >= a && b >= 4 && w[0] == SOM && w[1] == 189
    ensures Run(w[..a], [w[a..b]] + rest) == Run(w[..b], rest)
  {
    Stuck(w, b);
    hide Parse;
    assert w[..a] + w[a..b] == w[..b];
    assert ([w[a..b]] + rest)[1..] == rest;
    assert [] + Run(w[..b], rest).0 == Run(w[..b], rest).0;
  }

  lemma StartsOver(buffer: seq<Byte>, chunk: seq<Byte>)
    requires |buffer| + |chunk| > RX_BUFFER
    ensures Run(buffer, [chunk]).0 == Parse(chunk).0
  {
    hide Parse;
    assert [chunk][1..] == [];
    assert Parse(chunk).0 + [] == Parse(chunk).0;
  }

  /** Three full chunks of the long frame fill the buffer, the fourth replaces them. */
  lemma LongFrameLost(w: seq<Byte>)
    requires |w| == 256 && w[0] == SOM && w[1] == 189
    ensures Run([], FullChunks(w)).0 == Parse(w[192..]).0
  {
    hide Parse, Run, Concat;
    var c0, c1, c2, c3 := w[..64], w[64..128], w[128..192], w[192..];
    assert w[..0] == [] && w[0..64] == c0;
    Waits(w, 0, 64, [c1, c2, c3]);
    Waits(w, 64, 128, [c2, c3]);
    Waits(w, 128, 192, [c3]);
    StartsOver(w[..192], c3);
    assert FullChunks(w) == [c0] + [c1, c2, c3];
    assert [c1] + [c2, c3] == [c1, c2, c3] && [c2] + [c3] == [c2, c3];
  }

  /** 188 is tight: with one byte more, full chunks reset the buffer and lose an intact frame. */
  lemma SafePayloadIsTight(item: Item, more: seq<Byte>, w: seq<Byte>)
    requires Legal(item, 189) && item.Frame? && |item.payload| == 189 && Intact(item) && |more| == 63
    requires w == ItemBytes(item) + more
    ensures Parse(w).0 == [ComsMsg(item.typ, item.payload)] + Parse(more).0
    ensures |w| == 256 && ComsMsg(item.typ, item.payload) !in Run([], FullChunks(w)).0
  {
    hide Parse, Run, FullChunks, Crc;
    assert Dispatched(item) == [ComsMsg(item.typ, item.payload)];
    assert w[0] == SOM && w[1] == 189;
    hide Dispatched, Intact, ItemBytes, Legal;
    ParseFrame(item, more);
    LongFrameLost(w);
  }

  /** n stray zero bytes */
  function Zeros(n: nat): (items: seq<Item>)
    ensures |items| == n && AllLegal(items, 0)
  {
    if n == 0 then [] else [Noise(0)] + Zeros(n - 1)
  }

  lemma {:induction false} ZerosWire(n: nat)
    ensures |Wire(Zeros(n))| == n
  {
    if n == 0 {
    } else {
      ZerosWire(n - 1);
      assert Zeros(n)[1..] == Zeros(n - 1);
    }
  }

  predicate Carries(items: seq<Item>, chunks: seq<seq<Byte>>, maxPayload: nat)
    ensures Carries(items, chunks, maxPayload) ==> AllLegal(items, 255)
  {
    && AllLegal(items, maxPayload) && AllLegal(items, 255)
    && Chunked(chunks) && Wire(items) == Concat(chunks)
  }

  /** However a wire with payloads up to this length is cut into chunks, exactly its intact frames are dispatched. */
  ghost predicate AlwaysDelivers(maxPayload: nat) {
    forall items: seq<Item>, chunks: seq<seq<Byte>> ::
      Carries(items, chunks, maxPayload) ==> Run([], chunks).0 == Intended(items)
  }

  lemma ItemFirst(item: Item, rest: seq<Item>, maxPayload: nat)
    requires Legal(item, 255) && Legal(item, maxPayload) && AllLegal(rest, 0)
    ensures AllLegal([item] + rest, maxPayload) && AllLegal([item] + rest, 255) && AllLegal(rest, 255)
    ensures Wire([item] + rest) == ItemBytes(item) + Wire(rest)
    ensures Intended([item] + rest) == Dispatched(item) + Intended(rest)
  {
    assert ([item] + rest)[1..] == rest && ([item] + rest)[0] == item;
    assert forall k :: 0 < k < |[item] + rest| ==> ([item] + rest)[k] == rest[k - 1];
    hide Dispatched, ItemBytes;
  }

  function LongPayload(): (s: seq<Byte>)
    ensures |s| == 189
  {
    seq(189, _ => 0)
  }

  /** A wire of one long intact frame and stray bytes that loses its frame. */
  lemma LosingWire(item: Item, maxPayload: nat)
    requires maxPayload >= 189 && item == Frame(0, LongPayload(), Crc(189, 0, LongPayload()))
    ensures !AlwaysDelivers(maxPayload)
  {
    hide Run, Parse, Crc, Zeros, LongPayload, ItemBytes, Wire, Intended, Concat, FullChunks, AllLegal;
    var noise := Zeros(63);
    ItemFirst(item, noise, maxPayload);
    ZerosWire(63);
    var w, msg := ItemBytes(item) + Wire(noise), ComsMsg(item.typ, item.payload);
    SafePayloadIsTight(item, Wire(noise), w);
    FullChunksWhole(w);
    assert Carries([item] + noise, FullChunks(w), maxPayload);
    assert Dispatched(item) == [msg];
    assert ([msg] + Intended(noise))[0] == msg;
  }

  /** Of the payload lengths the message's array can hold, those up to 188 are safe and no others. */
  lemma DeliversExactly(maxPayload: nat)
    requires maxPayload <= MAX_PAYLOAD
    ensures AlwaysDelivers(maxPayload) <==> maxPayload <= SAFE_PAYLOAD
  {
    hide Run, Intended;
    if maxPayload <= SAFE_PAYLOAD {
      forall items: seq<Item>, chunks: seq<seq<Byte>> | Carries(items, chunks, maxPayload)
        ensures Run([], chunks).0 == Intended(items)
      {
        Delivery(items, chunks);
      }
    } else {
      LosingWire(Frame(0, LongPayload(), Crc(189, 0, LongPayload())), maxPayload);
    }
  }

  // ----- Damage

  /** The frame an item becomes when the bits of e, behind its LEN, are flipped on the wire. */
  function Damaged(item: Item, e: seq<Byte>): (d: Item)
    requires Legal(item, 255) && item.Frame? && |e| == |item.payload| + 2
    ensures d.Frame? && |d.payload| == |item.payload|
  {
    var n := |item.payload|;
    var body := Flip([item.typ] + item.payload + [item.crc], e);
    Frame(body[0], body[1..n + 1], body[n + 1])
  }

  lemma SplitAt(items: seq<Item>, i: nat)
    requires AllLegal(items, 255) && i < |items|
    ensures AllLegal(items[..i], 255) && AllLegal(items[i + 1..], 255)
    ensures Intended(items) == Intended(items[..i])
                               + Dispatched(items[i])
                               + Intended(items[i + 1..])
  {
    hide Dispatched, Legal;
    var after := items[i..];
    assert items == items[..i] + after && after[1..] == items[i + 1..] && after[0] == items[i];
    IntendedConcat(items[..i], after);
    assert Intended(after) == Dispatched(items[i]) + Intended(items[i + 1..]);
    assert Intended(items[..i]) + (Dispatched(items[i]) + Intended(items[i + 1..])) ==
        Intended(items[..i]) + Dispatched(items[i]) + Intended(items[i + 1..]);
  }

  /** An error the checksum is sure to catch removes exactly that frame's message, and no other. */
  lemma DamageIsolation(items: seq<Item>, i: nat, e: seq<Byte>, p: nat)
    requires AllLegal(items, 255) && i < |items| && items[i].Frame? && Intact(items[i])
    requires |e| == |items[i].payload| + 2 && (OddWeight(e) || Burst(BitList(e), p))
    ensures AllLegal(items[i := Damaged(items[i], e)], 255)
    ensures Parse(Wire(items)).0 ==
              Intended(items[..i]) + [ComsMsg(items[i].typ, items[i].payload)] + Intended(items[i + 1..])
    ensures Parse(Wire(items[i := Damaged(items[i], e)])).0 == Intended(items[..i]) + Intended(items[i + 1..])
  {
    hide Parse, Wire, Intended, Crc, Flip, OddWeight, Burst;
    var item, d := items[i], Damaged(items[i], e);
    var n := |item.payload|;
    var body := [item.typ] + item.payload + [item.crc];
    assert body[1..n + 1] == item.payload;
    DamageRejected(n, body, e, p);
    assert !Intact(d);
    SplitAt(items, i);
    SplitAt(items[i := d], i);
    ParseWire(items);
    ParseWire(items[i := d]);
    assert items[i := d][..i] == items[..i] && items[i := d][i + 1..] == items[i + 1..];
  }
}
