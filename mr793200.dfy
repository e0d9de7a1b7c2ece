/** The MR793200 SPI command codec: the opcode constants, the frames sent for
    reads, writes and write-enable, and the decoding of the replies of the two
    read modes (READ_NVM1 with its every-other-slot rule, and the block mode of
    read_nvm4). The SPI transfer itself (spidev's xfer2) is not modelled: the
    frame it is given is appended to the controller's `sent` log, and the bytes
    it returns are a parameter. */
module Mr793200 {
  import opened Base

  // Command opcodes: the upper nibble of the first byte of a transfer.
  const READ: byte := 0x90
  const WRITE: byte := 0xD0
  const READ_NVM0: byte := 0x00
  const READ_NVM1: byte := 0x10
  const READ_NVM2: byte := 0x20
  const READ_NVM3: byte := 0x30
  const READ_NVM4: byte := 0x40
  const WRITE_NVM: byte := 0xE0
  const READ_SPIST: byte := 0x80
  const WRITE_SPIST: byte := 0xC0

  /** Python's `a | b` on non-negative ints, bit by bit from the lowest. */
  function BitOr(a: nat, b: nat): (r: nat)
    ensures a <= r && b <= r && r <= a + b
    decreases a + b
  {
    if a == 0 then b
    else if b == 0 then a
    else 2 * BitOr(a / 2, b / 2) + (if a % 2 == 1 || b % 2 == 1 then 1 else 0)
  }

  /** OR-ing a value below 2^n into a multiple of 2^n adds it. */
  lemma {:induction false} BitOrDisjoint(k: nat, r: nat, n: nat)
    requires r < Pow2(n)
    ensures BitOr(Pow2(n) * k, r) == Pow2(n) * k + r
    decreases n
  {
    if n > 0 && k != 0 && r != 0 {
      var m := Pow2(n - 1) * k;
      assert Pow2(n) * k == 2 * m;
      BitOrDisjoint(k, r / 2, n - 1);
    }
  }

  /** An opcode (low nibble clear) or'ed with a bank number below 16 is their sum. */
  lemma BitOrNibble(op: byte, bank: byte)
    requires op % 16 == 0 && bank < 16
    ensures BitOr(op, bank) == op + bank
  {
    assert Pow2(4) == 16;
    BitOrDisjoint(op / 16, bank, 4);
  }

  function Zeros(n: nat): (z: seq<int>)
    ensures |z| == n && forall i :: 0 <= i < n ==> z[i] == 0
  {
    seq(n, _ => 0)
  }

  /** Python's s[lo:hi] for non-negative bounds: both ends clamped to the length. */
  function Slice<T>(s: seq<T>, lo: nat, hi: nat): (r: seq<T>)
    ensures lo <= hi <= |s| ==> r == s[lo..hi]
    ensures lo <= |s| <= hi ==> r == s[lo..]
    ensures |s| <= lo || hi <= lo ==> r == []
  {
    var a := Min(lo, |s|);
    var b := Min(hi, |s|);
    if a <= b then s[a..b] else []
  }

  // ---------------------------------------------------------------------------
  // read_nvm1: header [READ_NVM1 | msb, lsb, 0, 0], two filler bytes per word;
  // the first two reply bytes are dropped and word i is 2-byte slot 2i+1 of
  // what remains.
  // ---------------------------------------------------------------------------

  /** The frame read_nvm1 hands to the bus. */
  function Nvm1Request(msb: byte, lsb: int, wordLen: nat): (tx: seq<int>)
    ensures |tx| == 4 + 2 * wordLen
    ensures tx[0] == BitOr(READ_NVM1, msb) && tx[1] == lsb
    ensures forall k :: 2 <= k < |tx| ==> tx[k] == 0
  {
    [BitOr(READ_NVM1, msb), lsb, 0x00, 0x00] + Zeros(2 * wordLen)
  }

  /** Slot 2i+1 of the header-stripped reply, clamped as Python slices are. */
  function Nvm1Slot(data: seq<byte>, i: nat): seq<byte>
  {
    Slice(data, 2 * (2 * i + 1), 2 * (2 * i + 1) + 2)
  }

  /** The bytes read_nvm1 keeps from `reply` for the first n words. */
  function Nvm1Data(reply: seq<byte>, n: nat): (d: seq<byte>)
    ensures |d| <= 2 * n
  {
    if n == 0 then [] else Nvm1Data(reply, n - 1) + Nvm1Slot(Slice(reply, 2, |reply|), n - 1)
  }

  /** The loop of read_nvm1 (lines 26-28): grow the kept bytes one slot per word. */
  method DecodeNvm1(reply: seq<byte>, wordLen: nat) returns (kept: seq<byte>)
    ensures kept == Nvm1Data(reply, wordLen)
  {
    var data := Slice(reply, 2, |reply|);
    kept := [];
    for i := 0 to wordLen
      invariant kept == Nvm1Data(reply, i)
    {
      kept := kept + Nvm1Slot(data, i);
    }
  }

  /** d holds, word after word, raw reply bytes 4i+4 and 4i+5 for each of its
      k words (both read commands return word i at that offset). */
  ghost predicate WordsFrom(d: seq<byte>, reply: seq<byte>, k: nat)
  {
    && |d| == 2 * k
    && forall i :: 0 <= i < k ==> 4 * i + 5 < |reply| && d[2 * i] == reply[4 * i + 4] && d[2 * i + 1] == reply[4 * i + 5]
  }

  /** Appending the next word's two raw bytes extends WordsFrom by one word. */
  lemma WordsFromSnoc(d: seq<byte>, reply: seq<byte>, k: nat, w: seq<byte>, e: seq<byte>)
    requires WordsFrom(d, reply, k)
    requires 4 * k + 5 < |reply| && w == reply[4 * k + 4..4 * k + 6] && e == d + w
    ensures WordsFrom(e, reply, k + 1)
  {
    forall i | 0 <= i < k + 1
      ensures 4 * i + 5 < |reply| && e[2 * i] == reply[4 * i + 4] && e[2 * i + 1] == reply[4 * i + 5]
    {
      if i < k {
        assert e[2 * i] == d[2 * i] && e[2 * i + 1] == d[2 * i + 1];
      } else {
        assert e[2 * i] == w[0] && e[2 * i + 1] == w[1];
      }
    }
  }

  /** Slot i of a reply long enough to hold it is raw bytes 4i+4 and 4i+5; a
      reply that ends before byte 4i+4 gives an empty slot. */
  lemma Nvm1SlotShape(reply: seq<byte>, i: nat)
    ensures 4 * i + 6 <= |reply| ==> Nvm1Slot(Slice(reply, 2, |reply|), i) == reply[4 * i + 4..4 * i + 6]
    ensures |reply| <= 4 * i + 4 ==> Nvm1Slot(Slice(reply, 2, |reply|), i) == []
  {
    var data := Slice(reply, 2, |reply|);
    if 2 <= |reply| {
      assert data == reply[2..];
      if 4 * i + 6 <= |reply| {
        assert data[4 * i + 2..4 * i + 4] == reply[4 * i + 4..4 * i + 6];
      }
    }
  }

  /** When the reply is long enough for the first k slots, read_nvm1 keeps
      exactly raw bytes 4i+4 and 4i+5 for each word i < k. */
  lemma {:induction false} Nvm1DataWhole(reply: seq<byte>, k: nat)
    requires 4 * k + 2 <= |reply|
    ensures WordsFrom(Nvm1Data(reply, k), reply, k)
  {
    if k > 0 {
      Nvm1DataWhole(reply, k - 1);
      Nvm1SlotShape(reply, k - 1);
      WordsFromSnoc(Nvm1Data(reply, k - 1), reply, k - 1, reply[4 * k..4 * k + 2], Nvm1Data(reply, k));
    }
  }

  /** With the reply as long as the frame (4 + 2n bytes), slot i is whole exactly
      when i < (n + 1) / 2 and empty otherwise. */
  lemma {:induction false} Nvm1DataFrameLength(reply: seq<byte>, n: nat, k: nat)
    requires |reply| == 4 + 2 * n && k <= n
    ensures WordsFrom(Nvm1Data(reply, k), reply, Min(k, (n + 1) / 2))
  {
    var half := (n + 1) / 2;
    assert n <= 2 * half <= n + 1;
    if k <= half {
      Nvm1DataWhole(reply, k);
    } else {
      Nvm1DataFrameLength(reply, n, k - 1);
      Nvm1SlotShape(reply, k - 1);
    }
  }

  /** read_nvm1 as written: for a frame-length reply, each slot is whole or empty,
      the output has 2 * ((n + 1) / 2) bytes, and from two words on it is shorter
      than the 2n bytes the words would need. */
  lemma Nvm1LosesWords(reply: seq<byte>, n: nat)
    requires |reply| == 4 + 2 * n
    ensures |Nvm1Data(reply, n)| == 2 * ((n + 1) / 2)
    ensures n >= 2 ==> |Nvm1Data(reply, n)| < 2 * n
    ensures forall i :: 0 <= i < n ==>
      Nvm1Slot(Slice(reply, 2, |reply|), i) == (if 4 * i + 4 <= 2 + 2 * n then reply[4 * i + 4..4 * i + 6] else [])
  {
    Nvm1DataFrameLength(reply, n, n);
    forall i | 0 <= i < n
      ensures Nvm1Slot(Slice(reply, 2, |reply|), i) == (if 4 * i + 4 <= 2 + 2 * n then reply[4 * i + 4..4 * i + 6] else [])
    {
      Nvm1SlotShape(reply, i);
    }
  }

  /** For one word (the only length the applications use) read_nvm1 returns raw
      reply bytes 4 and 5. */
  lemma Nvm1SingleWord(reply: seq<byte>)
    requires |reply| >= 6
    ensures Nvm1Data(reply, 1) == reply[4..6]
  {
    Nvm1DataWhole(reply, 1);
    assert Nvm1Data(reply, 1)[0] == reply[4];
  }

  /** A five-byte reply is clamped: the one word read keeps only reply byte 4. */
  lemma Nvm1ShortWord(reply: seq<byte>)
    requires |reply| == 5
    ensures Nvm1Data(reply, 1) == [reply[4]]
  {
    var data := Slice(reply, 2, |reply|);
    assert data == reply[2..];
    assert Nvm1Slot(data, 0) == data[2..3];
  }

  // ---------------------------------------------------------------------------
  // read_nvm4: same header, four filler bytes per word; the reply must cover
  // the whole frame; word i is the first two bytes of the i-th 4-byte block
  // after the 4-byte header.
  // ---------------------------------------------------------------------------

  datatype IoError = ShortResponse(length: nat)

  /** The frame read_nvm4 hands to the bus (it uses the READ_NVM1 opcode). */
  function Nvm4Request(msb: byte, lsb: int, wordLen: nat): (tx: seq<int>)
    ensures |tx| == 4 + 4 * wordLen
    ensures tx[0] == BitOr(READ_NVM1, msb) && tx[1] == lsb
    ensures forall k :: 2 <= k < |tx| ==> tx[k] == 0
  {
    [BitOr(READ_NVM1, msb), lsb, 0x00, 0x00] + Zeros(4 * wordLen)
  }

  /** The data bytes of a whole read_nvm4 reply, word after word: bytes 4 + 4i
      and 5 + 4i for each word i; the two status bytes closing every block are
      not among them. */
  function Nvm4Data(reply: seq<byte>, n: nat): (d: seq<byte>)
    requires |reply| >= 4 + 4 * n
    ensures WordsFrom(d, reply, n)
  {
    if n == 0 then [] else Nvm4Data(reply, n - 1) + reply[4 * n..4 * n + 2]
  }

  /** The length check and loop of read_nvm4 (lines 57-66). */
  method DecodeNvm4(reply: seq<byte>, wordLen: nat) returns (r: Result<seq<byte>, IoError>)
    ensures r.Err? <==> |reply| < 4 + 4 * wordLen
    ensures r.Err? ==> r.error == ShortResponse(|reply|)
    ensures r.Ok? ==> r.value == Nvm4Data(reply, wordLen)
  {
    if |reply| < 4 + wordLen * 4 {
      return Err(ShortResponse(|reply|));
    }
    var payload := reply[4..];
    var data: seq<byte> := [];
    for i := 0 to wordLen
      invariant data == Nvm4Data(reply, i)
    {
      var base := i * 4;
      data := data + Slice(payload, base, base + 2);
    }
    return Ok(data);
  }

  // ---------------------------------------------------------------------------
  // Writes
  // ---------------------------------------------------------------------------

  /** enable_write_nvm: WRITE_SPIST to SPI_STAT with the SPI_EXCL bit set. */
  const EnableWriteFrame: seq<int> := [BitOr(WRITE_SPIST, 0x00), 0x00, 0x00, 0x01]

  lemma EnableWriteFrameBytes()
    ensures EnableWriteFrame == [0xC0, 0x00, 0x00, 0x01]
  {
    BitOrNibble(WRITE_SPIST, 0x00);
  }

  /** Frame i of write_nvm: the word at data[2i..2i+2] to address lsb + 2i. */
  function WriteNvmFrame(msb: byte, lsb: int, data: seq<byte>, i: nat): (tx: seq<int>)
    requires 2 * i + 2 <= |data|
  {
    [BitOr(WRITE_NVM, msb), lsb + i * 2] + Slice(data, 2 * i, 2 * i + 2)
  }

  /** Every frame write_nvm issues, in order: one per whole word of data. */
  function WriteNvmFrames(msb: byte, lsb: int, data: seq<byte>): (fs: seq<seq<int>>)
    ensures |fs| == |data| / 2
    ensures forall i :: 0 <= i < |fs| ==>
      fs[i] == [BitOr(WRITE_NVM, msb), lsb + 2 * i, data[2 * i], data[2 * i + 1]]
  {
    seq(|data| / 2, i requires 0 <= i < |data| / 2 => WriteNvmFrame(msb, lsb, data, i))
  }

  /** The data bytes carried by a list of write frames, in order. */
  function Carried(fs: seq<seq<int>>): seq<int>
  {
    if fs == [] then [] else Carried(fs[..|fs| - 1]) + Slice(fs[|fs| - 1], 2, 4)
  }

  /** Carried over the first k frames extends Carried over the first k - 1. */
  lemma CarriedPrefix(fs: seq<seq<int>>, k: nat)
    requires 0 < k <= |fs|
    ensures Carried(fs[..k]) == Carried(fs[..k - 1]) + Slice(fs[k - 1], 2, 4)
  {
    assert fs[..k][..k - 1] == fs[..k - 1];
  }

  /** Write frame i carries data bytes 2i and 2i + 1. */
  lemma FrameCarries(msb: byte, lsb: int, data: seq<byte>, i: nat)
    requires i < |data| / 2
    ensures Slice(WriteNvmFrames(msb, lsb, data)[i], 2, 4) == [data[2 * i], data[2 * i + 1]]
  {
    var f := WriteNvmFrames(msb, lsb, data)[i];
    assert f[2..4] == [data[2 * i], data[2 * i + 1]];
  }

  /** Frames whose i-th one carries bytes 2i and 2i + 1 carry, over the first
      k frames, the first 2k bytes in order. */
  lemma {:induction false} CarriedInOrder(fs: seq<seq<int>>, data: seq<byte>, k: nat)
    requires k <= |fs| && 2 * k <= |data|
    requires forall i :: 0 <= i < k ==> Slice(fs[i], 2, 4) == [data[2 * i], data[2 * i + 1]]
    ensures Carried(fs[..k]) == data[..2 * k]
  {
    if k > 0 {
      CarriedPrefix(fs, k);
      CarriedInOrder(fs, data, k - 1);
      assert data[..2 * k] == data[..2 * (k - 1)] + [data[2 * (k - 1)], data[2 * (k - 1) + 1]];
    }
  }

  /** write_nvm carries every data byte in order except a trailing odd byte. */
  lemma WriteNvmCarries(msb: byte, lsb: int, data: seq<byte>, k: nat)
    requires k <= |data| / 2
    ensures Carried(WriteNvmFrames(msb, lsb, data)[..k]) == data[..2 * k]
  {
    var fs := WriteNvmFrames(msb, lsb, data);
    forall i | 0 <= i < k
      ensures Slice(fs[i], 2, 4) == [data[2 * i], data[2 * i + 1]]
    {
      FrameCarries(msb, lsb, data, i);
    }
    CarriedInOrder(fs, data, k);
  }

  lemma WriteNvmDropsOddByte(msb: byte, lsb: int, data: seq<byte>)
    ensures Carried(WriteNvmFrames(msb, lsb, data)) == data[..2 * (|data| / 2)]
  {
    var fs := WriteNvmFrames(msb, lsb, data);
    WriteNvmCarries(msb, lsb, data, |data| / 2);
    assert fs[..|data| / 2] == fs;
  }

  // ---------------------------------------------------------------------------
  // The controller
  // ---------------------------------------------------------------------------

  class Mr793200Controller {
    /** Every frame handed to the SPI bus by this controller, oldest first. */
    var sent: seq<seq<int>>

    constructor ()
      ensures sent == []
    {
      sent := [];
    }

    /** read_nvm1: one transfer; the kept bytes as lower-case hex. */
    method ReadNvm1(msb: byte, lsb: int, wordLen: nat, reply: seq<byte>) returns (hex: string)
      modifies this
      ensures sent == old(sent) + [Nvm1Request(msb, lsb, wordLen)]
      ensures hex == ToHex(Nvm1Data(reply, wordLen))
    {
      sent := sent + [Nvm1Request(msb, lsb, wordLen)];
      var kept := DecodeNvm1(reply, wordLen);
      hex := ToHex(kept);
    }

    /** enable_write_nvm: one transfer, no reply used. */
    method EnableWriteNvm()
      modifies this
      ensures sent == old(sent) + [EnableWriteFrame]
    {
      sent := sent + [EnableWriteFrame];
    }

    /** write_nvm: one transfer per whole word (the settling delay after each is
        timing only). */
    method WriteNvm(msb: byte, lsb: int, data: seq<byte>)
      modifies this
      ensures sent == old(sent) + WriteNvmFrames(msb, lsb, data)
    {
      var wordLen := |data| / 2;
      for i := 0 to wordLen
        invariant sent == old(sent) + WriteNvmFrames(msb, lsb, data)[..i]
      {
        sent := sent + [WriteNvmFrame(msb, lsb, data, i)];
        assert WriteNvmFrames(msb, lsb, data)[..i + 1] == WriteNvmFrames(msb, lsb, data)[..i] + [WriteNvmFrame(msb, lsb, data, i)];
      }
      assert WriteNvmFrames(msb, lsb, data)[..wordLen] == WriteNvmFrames(msb, lsb, data);
    }

    /** read_nvm4: one transfer; IOError on a short reply, otherwise the data
        bytes as upper-case hex. */
    method ReadNvm4(msb: byte, lsb: int, wordLen: nat, reply: seq<byte>) returns (r: Result<string, IoError>)
      modifies this
      ensures sent == old(sent) + [Nvm4Request(msb, lsb, wordLen)]
      ensures r.Err? <==> |reply| < 4 + 4 * wordLen
      ensures r.Ok? ==> r.value == Upper(ToHex(Nvm4Data(reply, wordLen)))
    {
      sent := sent + [Nvm4Request(msb, lsb, wordLen)];
      var d := DecodeNvm4(reply, wordLen);
      match d
      case Err(e) => r := Err(e);
      case Ok(bytes) => r := Ok(Upper(ToHex(bytes)));
    }

    /** read_model_number: one word at 0x0418; a whole reply gives the hex of
        its bytes 4 and 5. */
    method ReadModelNumber(reply: seq<byte>) returns (hex: string)
      modifies this
      ensures sent == old(sent) + [Nvm1Request(0x04, 0x18, 1)]
      ensures hex == ToHex(Nvm1Data(reply, 1))
      ensures |reply| >= 6 ==> hex == ToHex(reply[4..6])
    {
      hex := ReadNvm1(0x04, 0x18, 1, reply);
      if |reply| >= 6 {
        Nvm1SingleWord(reply);
      }
    }

    /** read_nvm_user_memory: wordLen words of user memory from 0x0422. */
    method ReadNvmUserMemory(wordLen: nat, reply: seq<byte>) returns (hex: string)
      modifies this
      ensures sent == old(sent) + [Nvm1Request(0x04, 0x22, wordLen)]
      ensures hex == ToHex(Nvm1Data(reply, wordLen))
    {
      hex := ReadNvm1(0x04, 0x22, wordLen, reply);
    }

    /** write_nvm_user_memory: write_nvm at 0x0422 plus the offset. */
    method WriteNvmUserMemory(offset: int, data: seq<byte>)
      modifies this
      ensures sent == old(sent) + WriteNvmFrames(0x04, 0x22 + offset, data)
    {
      WriteNvm(0x04, 0x22 + offset, data);
    }
  }

  /** The hex text of a successful read_nvm4 has four upper-case digits per word. */
  lemma Nvm4HexLength(reply: seq<byte>, n: nat)
    requires |reply| >= 4 + 4 * n
    ensures |Upper(ToHex(Nvm4Data(reply, n)))| == 4 * n
  {
  }
}
