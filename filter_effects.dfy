/**
 * The filter-effects structure of a PSD file: a version followed by
 * length-prefixed effect records, each holding a UUID, a version, a body
 * (rectangle, depth, channel count and `max_channels + 2` channels) in a
 * length block, and an optional extra block after it.
 *
 * The byte format is stated as encoders and decoders on byte sequences;
 * the stream-cursor methods are proved to agree with them.
 */
module FilterEffects {
  import opened Wrappers
  import opened Stream

  datatype Rect = Rect(top: I32, left: I32, bottom: I32, right: I32)

  /** `FilterEffectChannel`: a written flag, and when written an optional compression code and data. */
  datatype Channel = Channel(isWritten: U32, compression: Option<U16>, data: Bytes)

  /** `FilterEffectExtra`. */
  datatype Extra = Extra(isWritten: Byte, rectangle: Rect, compression: U16, data: Bytes)

  /** `FilterEffect`. */
  datatype Effect = Effect(uuid: string, version: U32, rectangle: Rect, depth: U32, maxChannels: U32,
                           channels: seq<Channel>, extra: Option<Extra>)

  /** `FilterEffects`: a version and the list of effects. */
  datatype Effects = Effects(version: U32, items: seq<Effect>)

  /** The four fields `_read_body` returns. */
  datatype Body = Body(rectangle: Rect, depth: U32, maxChannels: U32, channels: seq<Channel>)

  // ---------------------------------------------------------------------------
  // Encoders
  // ---------------------------------------------------------------------------

  /** `write_fmt(fp, '4i', *rectangle)`. */
  function EncRect(r: Rect): (b: Bytes)
    ensures |b| == 16
  {
    EncI32(r.top) + EncI32(r.left) + EncI32(r.bottom) + EncI32(r.right)
  }

  /** What the channel's block writer puts in the block: nothing without a compression code. */
  function ChannelPayload(c: Channel): Bytes {
    if c.compression.None? then [] else EncUInt(c.compression.value, 2) + c.data
  }

  /** `FilterEffectChannel.write`: the flag, and the block only when the flag is set. */
  function EncChannel(c: Channel): Bytes {
    EncUInt(c.isWritten, 4) + (if c.isWritten == 0 then [] else EncodeLengthBlock(ChannelPayload(c), 8, 1))
  }

  function EncChannels(cs: seq<Channel>): Bytes {
    if cs == [] then [] else EncChannel(cs[0]) + EncChannels(cs[1..])
  }

  /** `FilterEffect._write_body`: every channel in the list, whatever `max_channels` says. */
  function EncBody(e: Effect): Bytes {
    EncRect(e.rectangle) + EncUInt(e.depth, 4) + EncUInt(e.maxChannels, 4) + EncChannels(e.channels)
  }

  /** `FilterEffectExtra.write`: the flag byte, then rectangle and block only when it is set. */
  function EncExtra(x: Extra): Bytes {
    [x.isWritten] + (if x.isWritten == 0 then []
                     else EncRect(x.rectangle) + EncodeLengthBlock(EncUInt(x.compression, 2) + x.data, 8, 1))
  }

  /** `FilterEffect.write`. */
  function EncEffect(e: Effect): Bytes {
    EncodePascal(e.uuid) + EncUInt(e.version, 4) + EncodeLengthBlock(EncBody(e), 8, 1)
    + (if e.extra.Some? then EncExtra(e.extra.value) else [])
  }

  /** Each effect in its own length block, padded to a multiple of 4. */
  function EncItems(items: seq<Effect>): Bytes {
    if items == [] then [] else EncodeLengthBlock(EncEffect(items[0]), 8, 4) + EncItems(items[1..])
  }

  /** `FilterEffects.write`. */
  function EncEffects(x: Effects): Bytes {
    EncUInt(x.version, 4) + EncItems(x.items)
  }

  // ---------------------------------------------------------------------------
  // Decoders
  // ---------------------------------------------------------------------------

  function DecodeRect(s: Bytes): (r: Result<(Rect, Bytes), Error>)
    ensures r.Err? <==> |s| < 16
    ensures r.Ok? ==> r.value.1 == s[16..]
  {
    var (top, s1) :- DecodeI32(s);
    var (left, s2) :- DecodeI32(s1);
    var (bottom, s3) :- DecodeI32(s2);
    var (right, s4) :- DecodeI32(s3);
    Ok((Rect(top, left, bottom, right), s4))
  }

  /** `FilterEffectChannel.read`. */
  function DecodeChannel(s: Bytes): (r: Result<(Channel, Bytes), Error>)
    ensures r.Ok? ==> |r.value.1| < |s|
  {
    var (isWritten, s1) :- DecodeU32(s);
    if isWritten == 0 then Ok((Channel(isWritten, None, []), s1))
    else
      var (block, s2) :- DecodeLengthBlock(s1, 8, 1);
      if |block| == 0 then Ok((Channel(isWritten, None, []), s2))
      else
        var (compression, data) :- DecodeU16(block);
        Ok((Channel(isWritten, Some(compression), data), s2))
  }

  /** What was read so far, put in front of what the rest of the stream decodes to. */
  function Prepend<T>(xs: seq<T>, r: Result<(seq<T>, Bytes), Error>): Result<(seq<T>, Bytes), Error> {
    match r
    case Err(e) => Err(e)
    case Ok((more, rest)) => Ok((xs + more, rest))
  }

  /** `count` values read one after the other by `step`. */
  function Repeat<T>(step: Bytes -> Result<(T, Bytes), Error>, s: Bytes, count: nat): Result<(seq<T>, Bytes), Error>
    decreases count
  {
    if count == 0 then Ok(([], s))
    else
      match step(s)
      case Err(e) => Err(e)
      case Ok((x, s1)) => Prepend([x], Repeat(step, s1, count - 1))
  }

  /** `count` channels one after the other. */
  function DecodeChannels(s: Bytes, count: nat): Result<(seq<Channel>, Bytes), Error> {
    Repeat(DecodeChannel, s, count)
  }

  /** `FilterEffect._read_body`. */
  function DecodeBody(s: Bytes): Result<(Body, Bytes), Error> {
    var (rectangle, s1) :- DecodeRect(s);
    var (depth, s2) :- DecodeU32(s1);
    var (maxChannels, s3) :- DecodeU32(s2);
    var (channels, s4) :- DecodeChannels(s3, maxChannels + 2);
    Ok((Body(rectangle, depth, maxChannels, channels), s4))
  }

  /** The extra block of an effect whose flag is clear. */
  function DefaultExtra(isWritten: Byte): Extra {
    Extra(isWritten, Rect(0, 0, 0, 0), 0, [])
  }

  /** `FilterEffectExtra.read`. */
  function DecodeExtra(s: Bytes): Result<(Extra, Bytes), Error> {
    var (isWritten, s1) :- DecodeU8(s);
    if isWritten == 0 then Ok((DefaultExtra(isWritten), s1))
    else
      var (rectangle, s2) :- DecodeRect(s1);
      var (block, s3) :- DecodeLengthBlock(s2, 8, 1);
      var (compression, data) :- DecodeU16(block);
      Ok((Extra(isWritten, rectangle, compression, data), s3))
  }

  /**
   * `FilterEffect.read`: anything in the body block after the channels is
   * ignored, and an extra block is read exactly when bytes remain after the body.
   */
  function DecodeEffect(s: Bytes): Result<(Effect, Bytes), Error> {
    var (uuid, s1) :- DecodePascal(s);
    var (version, s2) :- DecodeU32(s1);
    if version > 1 then Err(InvalidVersion(version))
    else
      var (block, s3) :- DecodeLengthBlock(s2, 8, 1);
      var (body, _) :- DecodeBody(block);
      if |s3| >= 1 then
        var (extra, s4) :- DecodeExtra(s3);
        Ok((Effect(uuid, version, body.rectangle, body.depth, body.maxChannels, body.channels, Some(extra)), s4))
      else
        Ok((Effect(uuid, version, body.rectangle, body.depth, body.maxChannels, body.channels, None), s3))
  }

  /** The item loop of `FilterEffects.read`: effects are read while at least 8 bytes remain. */
  function DecodeItems(s: Bytes): (r: Result<(seq<Effect>, Bytes), Error>)
    ensures r.Ok? ==> |r.value.1| < 8
    decreases |s|
  {
    if |s| < 8 then Ok(([], s))
    else
      var (block, s1) :- DecodeLengthBlock(s, 8, 4);
      var (item, _) :- DecodeEffect(block);
      Prepend([item], DecodeItems(s1))
  }

  /** `FilterEffects.read`. */
  function DecodeEffects(s: Bytes): Result<(Effects, Bytes), Error> {
    var (version, s1) :- DecodeU32(s);
    if version !in {1, 2, 3} then Err(InvalidVersion(version))
    else
      var (items, s2) :- DecodeItems(s1);
      Ok((Effects(version, items), s2))
  }

  // ---------------------------------------------------------------------------
  // What a read gives back
  // ---------------------------------------------------------------------------

  /** An unwritten channel reads back bare; a written one without compression reads back without data. */
  function NormChannel(c: Channel): Channel {
    if c.isWritten == 0 then Channel(0, None, [])
    else if c.compression.None? then Channel(c.isWritten, None, [])
    else c
  }

  function NormChannels(cs: seq<Channel>): (r: seq<Channel>)
    ensures |r| == |cs|
  {
    if cs == [] then [] else [NormChannel(cs[0])] + NormChannels(cs[1..])
  }

  /** An unwritten extra block reads back with the defaults. */
  function NormExtra(x: Extra): Extra {
    if x.isWritten == 0 then DefaultExtra(0) else x
  }

  /** The UUID loses its non-ASCII characters. */
  function NormEffect(e: Effect): Effect {
    e.(uuid := AsciiOnly(e.uuid), channels := NormChannels(e.channels),
       extra := if e.extra.Some? then Some(NormExtra(e.extra.value)) else None)
  }

  function NormItems(items: seq<Effect>): (r: seq<Effect>)
    ensures |r| == |items|
  {
    if items == [] then [] else [NormEffect(items[0])] + NormItems(items[1..])
  }

  function NormEffects(x: Effects): Effects {
    x.(items := NormItems(x.items))
  }

  /** Every length field holds its block's length. */
  ghost predicate ChannelFits(c: Channel) {
    |ChannelPayload(c)| < Pow256(8)
  }

  ghost predicate ExtraFits(x: Extra) {
    |x.data| + 2 < Pow256(8)
  }

  /**
   * An effect that reads back as written: a UUID of at most 255 ASCII
   * characters, a version the reader accepts, exactly `max_channels + 2`
   * channels, and blocks whose lengths fit their 8-byte fields.
   */
  ghost predicate EffectWellFormed(e: Effect) {
    && |AsciiOnly(e.uuid)| < 256
    && e.version <= 1
    && |e.channels| == e.maxChannels + 2
    && (forall i :: 0 <= i < |e.channels| ==> ChannelFits(e.channels[i]))
    && |EncBody(e)| < Pow256(8)
    && (e.extra.Some? ==> ExtraFits(e.extra.value))
  }

  ghost predicate EffectsWellFormed(x: Effects) {
    && x.version in {1, 2, 3}
    && forall i :: 0 <= i < |x.items| ==> ItemWellFormed(x.items[i])
  }

  lemma PrependOk<T>(xs: seq<T>, ys: seq<T>, rest: Bytes)
    ensures Prepend(xs, Ok((ys, rest))) == Ok((xs + ys, rest))
  {
  }

  lemma PrependEmpty<T>(r: Result<(seq<T>, Bytes), Error>)
    ensures Prepend([], r) == r
  {
    if r.Ok? {
      assert [] + r.value.0 == r.value.0;
    }
  }

  lemma PrependAssoc<T>(x: T, xs: seq<T>, r: Result<(seq<T>, Bytes), Error>)
    ensures Prepend([x] + xs, r) == Prepend([x], Prepend(xs, r))
  {
    if r.Ok? {
      assert ([x] + xs) + r.value.0 == [x] + (xs + r.value.0);
    }
  }

  lemma PrependSnoc<T>(xs: seq<T>, x: T, r: Result<(seq<T>, Bytes), Error>)
    ensures Prepend(xs, Prepend([x], r)) == Prepend(xs + [x], r)
  {
    if r.Ok? {
      assert xs + ([x] + r.value.0) == (xs + [x]) + r.value.0;
    }
  }

  // ---------------------------------------------------------------------------
  // Round trips
  // ---------------------------------------------------------------------------

  lemma DecodeRectOfEnc(r: Rect, rest: Bytes)
    ensures DecodeRect(EncRect(r) + rest) == Ok((r, rest))
  {
    var s := EncRect(r) + rest;
    assert s == EncI32(r.top) + (EncI32(r.left) + (EncI32(r.bottom) + (EncI32(r.right) + rest)));
    DecodeI32OfEnc(r.top, EncI32(r.left) + (EncI32(r.bottom) + (EncI32(r.right) + rest)));
    DecodeI32OfEnc(r.left, EncI32(r.bottom) + (EncI32(r.right) + rest));
    DecodeI32OfEnc(r.bottom, EncI32(r.right) + rest);
    DecodeI32OfEnc(r.right, rest);
  }

  /** A channel reads back as its normal form, and the bytes after it are left. */
  lemma DecodeChannelOfEnc(c: Channel, rest: Bytes)
    requires ChannelFits(c)
    ensures DecodeChannel(EncChannel(c) + rest) == Ok((NormChannel(c), rest))
  {
    var tail := if c.isWritten == 0 then [] else EncodeLengthBlock(ChannelPayload(c), 8, 1);
    assert EncChannel(c) + rest == EncUInt(c.isWritten, 4) + (tail + rest);
    DecodeU32OfEnc(c.isWritten, tail + rest);
    if c.isWritten != 0 {
      DecodeLengthBlockOfEnc(ChannelPayload(c), 8, 1, rest);
      if c.compression.Some? {
        DecodeU16OfEnc(c.compression.value, c.data);
      }
    }
  }

  lemma {:induction false} DecodeChannelsOfEnc(cs: seq<Channel>, rest: Bytes)
    requires forall i :: 0 <= i < |cs| ==> ChannelFits(cs[i])
    ensures DecodeChannels(EncChannels(cs) + rest, |cs|) == Ok((NormChannels(cs), rest))
  {
    if cs != [] {
      var s1 := EncChannels(cs[1..]) + rest;
      Appended(EncChannel(cs[0]), EncChannels(cs[1..]), rest);
      DecodeChannelOfEnc(cs[0], s1);
      DecodeChannelsOfEnc(cs[1..], rest);
      PrependOk([NormChannel(cs[0])], NormChannels(cs[1..]), rest);
      calc {
        DecodeChannels(EncChannels(cs) + rest, |cs|);
        Prepend([NormChannel(cs[0])], DecodeChannels(s1, |cs[1..]|));
        Ok(([NormChannel(cs[0])] + NormChannels(cs[1..]), rest));
      }
    } else {
      assert EncChannels(cs) + rest == rest;
    }
  }

  lemma DecodeBodyOfEnc(e: Effect, rest: Bytes)
    requires |e.channels| == e.maxChannels + 2
    requires forall i :: 0 <= i < |e.channels| ==> ChannelFits(e.channels[i])
    ensures DecodeBody(EncBody(e) + rest)
            == Ok((Body(e.rectangle, e.depth, e.maxChannels, NormChannels(e.channels)), rest))
  {
    var rect, depth := EncRect(e.rectangle), EncUInt(e.depth, 4);
    var count, channels := EncUInt(e.maxChannels, 4), EncChannels(e.channels);
    var chans := channels + rest;
    var s2 := count + chans;
    var s1 := depth + s2;
    Appended(rect + depth + count, channels, rest);
    Appended(rect + depth, count, chans);
    Appended(rect, depth, s2);
    DecodeRectOfEnc(e.rectangle, s1);
    DecodeU32OfEnc(e.depth, s2);
    DecodeU32OfEnc(e.maxChannels, chans);
    DecodeChannelsOfEnc(e.channels, rest);
  }

  lemma DecodeExtraOfEnc(x: Extra, rest: Bytes)
    requires ExtraFits(x)
    ensures DecodeExtra(EncExtra(x) + rest) == Ok((NormExtra(x), rest))
  {
    var block := EncodeLengthBlock(EncUInt(x.compression, 2) + x.data, 8, 1);
    var tail := if x.isWritten == 0 then [] else EncRect(x.rectangle) + block;
    assert EncUInt(x.isWritten, 1) == [x.isWritten];
    Appended([x.isWritten], tail, rest);
    DecodeU8OfEnc(x.isWritten, tail + rest);
    if x.isWritten != 0 {
      Appended(EncRect(x.rectangle), block, rest);
      DecodeRectOfEnc(x.rectangle, block + rest);
      DecodeLengthBlockOfEnc(EncUInt(x.compression, 2) + x.data, 8, 1, rest);
      DecodeU16OfEnc(x.compression, x.data);
    }
  }

  /** An effect record reads back as its normal form; the extra block is found exactly when it was written. */
  lemma DecodeEffectOfEnc(e: Effect)
    requires EffectWellFormed(e)
    ensures DecodeEffect(EncEffect(e)) == Ok((NormEffect(e), []))
  {
    var extra := if e.extra.Some? then EncExtra(e.extra.value) else [];
    var name, version := EncodePascal(e.uuid), EncUInt(e.version, 4);
    var body := EncodeLengthBlock(EncBody(e), 8, 1);
    var block := body + extra;
    var s2 := version + block;
    Appended(name + version, body, extra);
    Appended(name, version, block);
    DecodePascalOfEnc(e.uuid, s2);
    DecodeU32OfEnc(e.version, block);
    DecodeLengthBlockOfEnc(EncBody(e), 8, 1, extra);
    DecodeBodyOfEnc(e, []);
    assert EncBody(e) + [] == EncBody(e);
    if e.extra.Some? {
      DecodeExtraOfEnc(e.extra.value, []);
      assert extra + [] == extra;
    }
  }

  /** An effect item that reads back as written. */
  ghost predicate ItemWellFormed(e: Effect) {
    EffectWellFormed(e) && |EncEffect(e)| < Pow256(8)
  }

  lemma DecodeItemOfEnc(e: Effect, s1: Bytes)
    requires ItemWellFormed(e)
    ensures DecodeItems(EncodeLengthBlock(EncEffect(e), 8, 4) + s1) == Prepend([NormEffect(e)], DecodeItems(s1))
  {
    DecodeLengthBlockOfEnc(EncEffect(e), 8, 4, s1);
    DecodeEffectOfEnc(e);
  }

  lemma {:induction false} DecodeItemsOfEnc(items: seq<Effect>, rest: Bytes)
    requires |rest| < 8
    requires forall i :: 0 <= i < |items| ==> ItemWellFormed(items[i])
    ensures DecodeItems(EncItems(items) + rest) == Ok((NormItems(items), rest))
  {
    if items != [] {
      var s1 := EncItems(items[1..]) + rest;
      Appended(EncodeLengthBlock(EncEffect(items[0]), 8, 4), EncItems(items[1..]), rest);
      DecodeItemOfEnc(items[0], s1);
      DecodeItemsOfEnc(items[1..], rest);
      PrependOk([NormEffect(items[0])], NormItems(items[1..]), rest);
    } else {
      assert EncItems(items) + rest == rest;
    }
  }

  /** `read(write(x))` gives back x in normal form; fewer than 8 trailing bytes are left unread. */
  lemma DecodeEffectsOfEnc(x: Effects, rest: Bytes)
    requires EffectsWellFormed(x) && |rest| < 8
    ensures DecodeEffects(EncEffects(x) + rest) == Ok((NormEffects(x), rest))
  {
    Appended(EncUInt(x.version, 4), EncItems(x.items), rest);
    DecodeU32OfEnc(x.version, EncItems(x.items) + rest);
    DecodeItemsOfEnc(x.items, rest);
  }

  /** Writing depends only on the normal form, so normalising loses nothing the format keeps. */
  lemma EncChannelNorm(c: Channel)
    ensures EncChannel(NormChannel(c)) == EncChannel(c)
  {
  }

  lemma EncExtraNorm(x: Extra)
    ensures EncExtra(NormExtra(x)) == EncExtra(x)
  {
  }

  lemma {:induction false} EncChannelsNorm(cs: seq<Channel>)
    ensures EncChannels(NormChannels(cs)) == EncChannels(cs)
  {
    if cs != [] {
      EncChannelsNorm(cs[1..]);
      assert NormChannels(cs)[1..] == NormChannels(cs[1..]);
    }
  }

  lemma EncEffectNorm(e: Effect)
    ensures EncEffect(NormEffect(e)) == EncEffect(e)
  {
    EncodePascalAscii(e.uuid);
    EncChannelsNorm(e.channels);
  }

  /** An unwritten channel writes only its 4-byte flag; an unwritten extra block only its flag byte. */
  lemma UnwrittenIsFlagOnly(c: Channel, x: Extra)
    ensures c.isWritten == 0 ==> EncChannel(c) == [0, 0, 0, 0]
    ensures x.isWritten == 0 ==> EncExtra(x) == [0]
  {
  }

  /** A written channel without compression writes an empty block. */
  lemma UncompressedChannelIsEmptyBlock(c: Channel)
    requires c.isWritten != 0 && c.compression.None?
    ensures EncChannel(c) == EncUInt(c.isWritten, 4) + EncUInt(0, 8)
  {
  }

  // ---------------------------------------------------------------------------
  // Version checks
  // ---------------------------------------------------------------------------

  /** `FilterEffects.read` succeeds only on versions 1 to 3 and rejects every other with that version. */
  lemma DecodeEffectsVersion(s: Bytes)
    ensures DecodeEffects(s).Ok? ==> DecodeEffects(s).value.0.version in {1, 2, 3}
    ensures |s| >= 4 && DecodeU32(s).value.0 !in {1, 2, 3} ==>
              DecodeEffects(s) == Err(InvalidVersion(DecodeU32(s).value.0))
  {
  }

  /** `FilterEffect.read` rejects any version above 1, whatever follows it. */
  lemma DecodeEffectRejectsVersion(uuid: string, version: U32, rest: Bytes)
    requires |AsciiOnly(uuid)| < 256 && version > 1
    ensures DecodeEffect(EncodePascal(uuid) + EncUInt(version, 4) + rest) == Err(InvalidVersion(version))
  {
    var s2 := EncUInt(version, 4) + rest;
    assert EncodePascal(uuid) + EncUInt(version, 4) + rest == EncodePascal(uuid) + s2;
    DecodePascalOfEnc(uuid, s2);
    DecodeU32OfEnc(version, rest);
  }

  /** A channel whose block is one byte long cannot hold its compression code. */
  lemma DecodeChannelShortBlock(isWritten: U32, b: Byte, rest: Bytes)
    requires isWritten != 0
    ensures DecodeChannel(EncUInt(isWritten, 4) + EncodeLengthBlock([b], 8, 1) + rest) == Err(ShortRead)
  {
    var block := EncodeLengthBlock([b], 8, 1);
    Appended(EncUInt(isWritten, 4), block, rest);
    DecodeU32OfEnc(isWritten, block + rest);
    assert Pow256(8) == 256 * Pow256(7);
    DecodeLengthBlockOfEnc([b], 8, 1, rest);
    assert DecodeLengthBlock(block + rest, 8, 1) == Ok(([b], rest));
    assert DecodeU16([b]) == Err(ShortRead);
  }

  // ---------------------------------------------------------------------------
  // Shape of what is read
  // ---------------------------------------------------------------------------

  /** A successful repetition yields exactly `count` values. */
  lemma {:induction false} RepeatCount<T>(step: Bytes -> Result<(T, Bytes), Error>, s: Bytes, count: nat)
    ensures Repeat(step, s, count).Ok? ==> |Repeat(step, s, count).value.0| == count
    decreases count
  {
    if count > 0 && step(s).Ok? {
      RepeatCount(step, step(s).value.1, count - 1);
    }
  }

  /** A body that reads holds `max_channels + 2` channels, as the loop bound says. */
  lemma DecodeBodyChannels(s: Bytes)
    ensures DecodeBody(s).Ok? ==>
              |DecodeBody(s).value.0.channels| == DecodeBody(s).value.0.maxChannels + 2
  {
    if DecodeBody(s).Ok? {
      var s1 := DecodeRect(s).value.1;
      var s2 := DecodeU32(s1).value.1;
      var (maxChannels, s3) := DecodeU32(s2).value;
      RepeatCount(DecodeChannel, s3, maxChannels + 2);
    }
  }

  /**
   * An effect that reads has version 0 or 1 and `max_channels + 2` channels,
   * and it has an extra block exactly when bytes were left after its body block.
   */
  lemma DecodeEffectShape(s: Bytes)
    ensures DecodeEffect(s).Ok? ==>
              var e := DecodeEffect(s).value.0;
              e.version <= 1 && |e.channels| == e.maxChannels + 2
    ensures DecodeEffect(s).Ok? ==>
              var s3 := DecodeLengthBlock(DecodeU32(DecodePascal(s).value.1).value.1, 8, 1).value.1;
              DecodeEffect(s).value.0.extra.Some? <==> |s3| >= 1
  {
    if DecodeEffect(s).Ok? {
      var s1 := DecodePascal(s).value.1;
      var s2 := DecodeU32(s1).value.1;
      var block := DecodeLengthBlock(s2, 8, 1).value.0;
      DecodeBodyChannels(block);
    }
  }

  // ---------------------------------------------------------------------------
  // Reading from a stream
  // ---------------------------------------------------------------------------

  method ReadRect(r: Reader) returns (res: Result<Rect, Error>)
    requires r.Valid()
    modifies r
    ensures r.Valid() && Agrees(res, DecodeRect(old(r.Remaining())), r.Remaining())
  {
    var top :- r.ReadI32();
    var left :- r.ReadI32();
    var bottom :- r.ReadI32();
    var right :- r.ReadI32();
    res := Ok(Rect(top, left, bottom, right));
  }

  /** `FilterEffectChannel.read`. */
  method ReadChannel(r: Reader) returns (res: Result<Channel, Error>)
    requires r.Valid()
    modifies r
    ensures r.Valid() && Agrees(res, DecodeChannel(old(r.Remaining())), r.Remaining())
  {
    var isWritten :- r.ReadU32();
    if isWritten == 0 {
      return Ok(Channel(isWritten, None, []));
    }
    var data :- r.ReadLengthBlock(8, 1);
    if |data| == 0 {
      return Ok(Channel(isWritten, None, []));
    }
    var f := new Reader(data);
    var compression := f.ReadU16();
    if compression.Err? {
      return Err(compression.error);
    }
    var rest := f.ReadRest();
    res := Ok(Channel(isWritten, Some(compression.value), rest));
  }

  lemma RepeatOne<T>(step: Bytes -> Result<(T, Bytes), Error>, s: Bytes)
    requires step(s).Ok?
    ensures Repeat(step, s, 1) == Ok(([step(s).value.0], step(s).value.1))
  {
    assert [step(s).value.0] + [] == [step(s).value.0];
  }

  /** One more step of a repetition: its failure is the whole repetition's failure, its value is appended. */
  lemma RepeatStep<T>(step: Bytes -> Result<(T, Bytes), Error>, s: Bytes, i: nat, count: nat, xs: seq<T>, s1: Bytes)
    requires Repeat(step, s, i) == Ok((xs, s1)) && i < count
    ensures step(s1).Err? ==> Repeat(step, s, count) == Err(step(s1).error)
    ensures step(s1).Ok? ==> Repeat(step, s, i + 1) == Ok((xs + [step(s1).value.0], step(s1).value.1))
  {
    RepeatSplit(step, s, i, count - i, xs, s1);
    if step(s1).Ok? {
      RepeatSplit(step, s, i, 1, xs, s1);
      RepeatOne(step, s1);
      PrependOk(xs, [step(s1).value.0], step(s1).value.1);
    }
  }

  /** Reading i values and then j more is reading i + j. */
  lemma {:induction false} RepeatSplit<T>(step: Bytes -> Result<(T, Bytes), Error>, s: Bytes, i: nat, j: nat,
                                          xs: seq<T>, s1: Bytes)
    requires Repeat(step, s, i) == Ok((xs, s1))
    ensures Repeat(step, s, i + j) == Prepend(xs, Repeat(step, s1, j))
    decreases i
  {
    if i == 0 {
      PrependEmpty(Repeat(step, s1, j));
    } else {
      var x := step(s).value.0;
      var s2 := step(s).value.1;
      var xs' := Repeat(step, s2, i - 1).value.0;
      assert xs == [x] + xs';
      RepeatSplit(step, s2, i - 1, j, xs', s1);
      var later := Repeat(step, s1, j);
      PrependAssoc(x, xs', later);
      calc {
        Repeat(step, s, i + j);
        Prepend([x], Repeat(step, s2, (i - 1) + j));
        Prepend([x], Prepend(xs', later));
      }
    }
  }

  /** The channel loop of `FilterEffect._read_body`. */
  method ReadChannels(r: Reader, count: nat) returns (res: Result<seq<Channel>, Error>)
    requires r.Valid()
    modifies r
    ensures r.Valid() && Agrees(res, DecodeChannels(old(r.Remaining()), count), r.Remaining())
  {
    ghost var start := r.Remaining();
    var channels: seq<Channel> := [];
    for i: nat := 0 to count
      invariant r.Valid()
      invariant Repeat(DecodeChannel, start, i) == Ok((channels, r.Remaining()))
    {
      ghost var before := r.Remaining();
      var channel := ReadChannel(r);
      RepeatStep(DecodeChannel, start, i, count, channels, before);
      if channel.Err? {
        return Err(channel.error);
      }
      channels := channels + [channel.value];
    }
    res := Ok(channels);
  }

  /** `FilterEffect._read_body`: `max_channels + 2` channels follow the header fields. */
  method ReadBody(r: Reader) returns (res: Result<Body, Error>)
    requires r.Valid()
    modifies r
    ensures r.Valid() && Agrees(res, DecodeBody(old(r.Remaining())), r.Remaining())
  {
    var rectangle :- ReadRect(r);
    var depth :- r.ReadU32();
    var maxChannels :- r.ReadU32();
    var channels :- ReadChannels(r, maxChannels as nat + 2);
    res := Ok(Body(rectangle, depth, maxChannels, channels));
  }

  /** `FilterEffectExtra.read`. */
  method ReadExtra(r: Reader) returns (res: Result<Extra, Error>)
    requires r.Valid()
    modifies r
    ensures r.Valid() && Agrees(res, DecodeExtra(old(r.Remaining())), r.Remaining())
  {
    var isWritten :- r.ReadU8();
    if isWritten == 0 {
      return Ok(DefaultExtra(isWritten));
    }
    var rectangle :- ReadRect(r);
    var block :- r.ReadLengthBlock(8, 1);
    var f := new Reader(block);
    var compression := f.ReadU16();
    if compression.Err? {
      return Err(compression.error);
    }
    var data := f.ReadRest();
    res := Ok(Extra(isWritten, rectangle, compression.value, data));
  }

  /** `FilterEffect.read`. */
  method ReadEffect(r: Reader) returns (res: Result<Effect, Error>)
    requires r.Valid()
    modifies r
    ensures r.Valid() && Agrees(res, DecodeEffect(old(r.Remaining())), r.Remaining())
  {
    var uuid :- r.ReadPascalString();
    var version :- r.ReadU32();
    if version > 1 {
      return Err(InvalidVersion(version));
    }
    var block :- r.ReadLengthBlock(8, 1);
    var f := new Reader(block);
    var body := ReadBody(f);
    if body.Err? {
      return Err(body.error);
    }
    var b := body.value;
    var extra: Option<Extra> := None;
    if r.IsReadable(1) {
      var x := ReadExtra(r);
      if x.Err? {
        return Err(x.error);
      }
      extra := Some(x.value);
    }
    res := Ok(Effect(uuid, version, b.rectangle, b.depth, b.maxChannels, b.channels, extra));
  }

  /** `FilterEffects.read`. */
  method ReadEffects(r: Reader) returns (res: Result<Effects, Error>)
    requires r.Valid()
    modifies r
    ensures r.Valid() && Agrees(res, DecodeEffects(old(r.Remaining())), r.Remaining())
  {
    var version :- r.ReadU32();
    if version !in {1, 2, 3} {
      return Err(InvalidVersion(version));
    }
    ghost var start := r.Remaining();
    var items: seq<Effect> := [];
    PrependEmpty(DecodeItems(start));
    while r.IsReadable(8)
      invariant r.Valid()
      invariant DecodeItems(start) == Prepend(items, DecodeItems(r.Remaining()))
      decreases |r.Remaining()|
    {
      ghost var before := r.Remaining();
      var block := r.ReadLengthBlock(8, 4);
      if block.Err? {
        return Err(block.error);
      }
      var f := new Reader(block.value);
      var item := ReadEffect(f);
      if item.Err? {
        return Err(item.error);
      }
      assert DecodeItems(before) == Prepend([item.value], DecodeItems(r.Remaining()));
      PrependSnoc(items, item.value, DecodeItems(r.Remaining()));
      items := items + [item.value];
    }
    assert items + [] == items;
    res := Ok(Effects(version, items));
  }

  // ---------------------------------------------------------------------------
  // Writing to a stream
  // ---------------------------------------------------------------------------

  method WriteRect(w: Writer, rect: Rect) returns (written: nat)
    modifies w
    ensures w.out == old(w.out) + EncRect(rect) && written == 16
  {
    ghost var o := w.out;
    var a := w.WriteI32(rect.top);
    var b := w.WriteI32(rect.left);
    Appended(o, EncI32(rect.top), EncI32(rect.left));
    var c := w.WriteI32(rect.bottom);
    Appended(o, EncI32(rect.top) + EncI32(rect.left), EncI32(rect.bottom));
    var d := w.WriteI32(rect.right);
    Appended(o, EncI32(rect.top) + EncI32(rect.left) + EncI32(rect.bottom), EncI32(rect.right));
    written := a + b + c + d;
  }

  /** `write_length_block` around a channel's compression code and data. */
  method WriteChannelBlock(w: Writer, c: Channel) returns (written: nat)
    modifies w
    ensures w.out == old(w.out) + EncodeLengthBlock(ChannelPayload(c), 8, 1)
    ensures written == |EncodeLengthBlock(ChannelPayload(c), 8, 1)|
  {
    ghost var before := w.out;
    var at := w.ReserveLength(8);
    var length := 0;
    if c.compression.Some? {
      length := w.WriteUInt(c.compression.value, 2);
      var n := w.WriteBytes(c.data);
      Appended(before + Zeros(8), EncUInt(c.compression.value, 2), c.data);
      length := length + n;
    } else {
      assert w.out == before + Zeros(8) + [];
    }
    written := w.FinishLength(at, 8, length, 1);
    LengthBlockAppends(before, ChannelPayload(c), 8, 1);
  }

  /** `FilterEffectChannel.write`. */
  method WriteChannel(w: Writer, c: Channel) returns (written: nat)
    modifies w
    ensures w.out == old(w.out) + EncChannel(c) && written == |EncChannel(c)|
  {
    ghost var o := w.out;
    written := w.WriteUInt(c.isWritten, 4);
    if c.isWritten != 0 {
      var block := WriteChannelBlock(w, c);
      Appended(o, EncUInt(c.isWritten, 4), EncodeLengthBlock(ChannelPayload(c), 8, 1));
      written := written + block;
    } else {
      assert EncChannel(c) == EncUInt(c.isWritten, 4) + [];
    }
  }

  lemma {:induction false} EncChannelsSnoc(cs: seq<Channel>, c: Channel)
    ensures EncChannels(cs + [c]) == EncChannels(cs) + EncChannel(c)
  {
    if cs == [] {
      assert [] + [c] == [c];
      assert EncChannels([c]) == EncChannel(c) + EncChannels([]);
    } else {
      assert (cs + [c])[1..] == cs[1..] + [c];
      EncChannelsSnoc(cs[1..], c);
    }
  }

  lemma EncChannelsTake(cs: seq<Channel>, i: nat)
    requires i < |cs|
    ensures EncChannels(cs[..i + 1]) == EncChannels(cs[..i]) + EncChannel(cs[i])
  {
    assert cs[..i + 1] == cs[..i] + [cs[i]];
    EncChannelsSnoc(cs[..i], cs[i]);
  }

  /** The channel loop of `FilterEffect._write_body`. */
  method WriteChannels(w: Writer, cs: seq<Channel>) returns (written: nat)
    modifies w
    ensures w.out == old(w.out) + EncChannels(cs) && written == |EncChannels(cs)|
  {
    written := 0;
    for i := 0 to |cs|
      invariant w.out == old(w.out) + EncChannels(cs[..i])
      invariant written == |EncChannels(cs[..i])|
    {
      var n := WriteChannel(w, cs[i]);
      Appended(old(w.out), EncChannels(cs[..i]), EncChannel(cs[i]));
      EncChannelsTake(cs, i);
      written := written + n;
    }
    assert cs[..|cs|] == cs;
  }

  /** `FilterEffect._write_body`. */
  method WriteBody(w: Writer, e: Effect) returns (written: nat)
    modifies w
    ensures w.out == old(w.out) + EncBody(e) && written == |EncBody(e)|
  {
    ghost var o := w.out;
    var rect, depth := EncRect(e.rectangle), EncUInt(e.depth, 4);
    var count, channels := EncUInt(e.maxChannels, 4), EncChannels(e.channels);
    written := WriteRect(w, e.rectangle);
    var n := w.WriteUInt(e.depth, 4);
    Appended(o, rect, depth);
    written := written + n;
    n := w.WriteUInt(e.maxChannels, 4);
    Appended(o, rect + depth, count);
    written := written + n;
    n := WriteChannels(w, e.channels);
    Appended(o, rect + depth + count, channels);
    written := written + n;
  }

  /** `write_length_block` around the extra block's compression code and data. */
  method WriteExtraBlock(w: Writer, x: Extra) returns (written: nat)
    modifies w
    ensures w.out == old(w.out) + EncodeLengthBlock(EncUInt(x.compression, 2) + x.data, 8, 1)
    ensures written == |EncodeLengthBlock(EncUInt(x.compression, 2) + x.data, 8, 1)|
  {
    ghost var before := w.out;
    var at := w.ReserveLength(8);
    var length := w.WriteUInt(x.compression, 2);
    var n := w.WriteBytes(x.data);
    Appended(before + Zeros(8), EncUInt(x.compression, 2), x.data);
    length := length + n;
    written := w.FinishLength(at, 8, length, 1);
    LengthBlockAppends(before, EncUInt(x.compression, 2) + x.data, 8, 1);
  }

  /** `FilterEffectExtra.write`. */
  method WriteExtra(w: Writer, x: Extra) returns (written: nat)
    modifies w
    ensures w.out == old(w.out) + EncExtra(x) && written == |EncExtra(x)|
  {
    ghost var o := w.out;
    written := w.WriteUInt(x.isWritten, 1);
    assert EncUInt(x.isWritten, 1) == [x.isWritten];
    if x.isWritten != 0 {
      var block := EncodeLengthBlock(EncUInt(x.compression, 2) + x.data, 8, 1);
      var n := WriteRect(w, x.rectangle);
      written := written + n;
      n := WriteExtraBlock(w, x);
      Appended(o + [x.isWritten], EncRect(x.rectangle), block);
      Appended(o, [x.isWritten], EncRect(x.rectangle) + block);
      written := written + n;
    } else {
      assert EncExtra(x) == [x.isWritten] + [];
    }
  }

  /** `write_length_block` around an effect's body. */
  method WriteBodyBlock(w: Writer, e: Effect) returns (written: nat)
    modifies w
    ensures w.out == old(w.out) + EncodeLengthBlock(EncBody(e), 8, 1)
    ensures written == |EncodeLengthBlock(EncBody(e), 8, 1)|
  {
    ghost var before := w.out;
    var at := w.ReserveLength(8);
    var length := WriteBody(w, e);
    written := w.FinishLength(at, 8, length, 1);
    LengthBlockAppends(before, EncBody(e), 8, 1);
  }

  /** `FilterEffect.write`. */
  method WriteEffect(w: Writer, e: Effect) returns (written: nat)
    modifies w
    ensures w.out == old(w.out) + EncEffect(e) && written == |EncEffect(e)|
  {
    ghost var o := w.out;
    var name, version := EncodePascal(e.uuid), EncUInt(e.version, 4);
    var body := EncodeLengthBlock(EncBody(e), 8, 1);
    written := w.WritePascalString(e.uuid);
    var n := w.WriteUInt(e.version, 4);
    Appended(o, name, version);
    written := written + n;
    n := WriteBodyBlock(w, e);
    Appended(o, name + version, body);
    written := written + n;
    if e.extra.Some? {
      n := WriteExtra(w, e.extra.value);
      Appended(o, name + version + body, EncExtra(e.extra.value));
      written := written + n;
    } else {
      assert EncEffect(e) == name + version + body + [];
    }
  }

  /** One effect as a length block padded to a multiple of 4. */
  method WriteItem(w: Writer, e: Effect) returns (written: nat)
    modifies w
    ensures w.out == old(w.out) + EncodeLengthBlock(EncEffect(e), 8, 4)
    ensures written == |EncodeLengthBlock(EncEffect(e), 8, 4)|
  {
    ghost var before := w.out;
    var at := w.ReserveLength(8);
    var length := WriteEffect(w, e);
    written := w.FinishLength(at, 8, length, 4);
    LengthBlockAppends(before, EncEffect(e), 8, 4);
  }

  lemma {:induction false} EncItemsSnoc(items: seq<Effect>, e: Effect)
    ensures EncItems(items + [e]) == EncItems(items) + EncodeLengthBlock(EncEffect(e), 8, 4)
  {
    if items == [] {
      assert [] + [e] == [e];
      assert EncItems([e]) == EncodeLengthBlock(EncEffect(e), 8, 4) + EncItems([]);
    } else {
      assert (items + [e])[1..] == items[1..] + [e];
      EncItemsSnoc(items[1..], e);
    }
  }

  lemma EncItemsTake(items: seq<Effect>, i: nat)
    requires i < |items|
    ensures EncItems(items[..i + 1]) == EncItems(items[..i]) + EncodeLengthBlock(EncEffect(items[i]), 8, 4)
  {
    assert items[..i + 1] == items[..i] + [items[i]];
    EncItemsSnoc(items[..i], items[i]);
  }

  /** The item loop of `FilterEffects.write`. */
  method WriteItems(w: Writer, items: seq<Effect>) returns (written: nat)
    modifies w
    ensures w.out == old(w.out) + EncItems(items) && written == |EncItems(items)|
  {
    written := 0;
    for i := 0 to |items|
      invariant w.out == old(w.out) + EncItems(items[..i])
      invariant written == |EncItems(items[..i])|
    {
      var block := WriteItem(w, items[i]);
      Appended(old(w.out), EncItems(items[..i]), EncodeLengthBlock(EncEffect(items[i]), 8, 4));
      EncItemsTake(items, i);
      written := written + block;
    }
    assert items[..|items|] == items;
  }

  /** `FilterEffects.write`: the version, then every effect in list order as a padded block. */
  method WriteEffects(w: Writer, x: Effects) returns (written: nat)
    modifies w
    ensures w.out == old(w.out) + EncEffects(x) && written == |EncEffects(x)|
  {
    ghost var o := w.out;
    written := w.WriteUInt(x.version, 4);
    var n := WriteItems(w, x.items);
    Appended(o, EncUInt(x.version, 4), EncItems(x.items));
    written := written + n;
  }
}
