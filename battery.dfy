/** The battery monitor application (src/battery/main_rp.py): the VDET/RESET
    poll step, the hot-reset button, one pass of the SPI reader that decodes
    sixteen on/off channels and their temperatures and pushes the on/off mask to
    the PCA9539, the Stop and window-close teardown, and the status labels.
    GPIO levels are inputs, GPIO writes to the RESET line are logged, the
    widgets are two 16-element arrays, and the timing between steps (sleeps,
    the asyncio tasks) is not modelled: each step runs to completion. */
module Battery {
  import opened Base
  import Mr793200
  import opened Pca9539

  /** The MR793200 user-memory words read each cycle: 0x22 holds the on/off
      mask, the rest hold two temperatures each. */
  const USER_ADDRS: seq<int> := [0x22, 0x24, 0x26, 0x28, 0x2A, 0x2C, 0x2E, 0x30, 0x32]

  lemma UserAddrsStep()
    ensures |USER_ADDRS| == 9
    ensures forall k :: 0 <= k < 9 ==> USER_ADDRS[k] == 0x22 + 2 * k
  {
  }

  // ---------------------------------------------------------------------------
  // The poll step and the hot reset, as transitions on the tracked status
  // ---------------------------------------------------------------------------

  /** What the poll task tracks: the last VDET level seen, the level last driven
      on RESET (None before main records them), i2c_ready and the PCA9539's
      initialized flag. */
  datatype Status = Status(vdet: Option<bool>, reset: Option<bool>, i2cReady: bool, pcaInit: bool)

  /** The initialisation attempted when RESET is released: init_device only if
      the device is not initialized yet (initOk is what it would report). */
  function Released(s: Status, initOk: bool): (t: Status)
    ensures t.vdet == s.vdet && t.reset == Some(true)
    ensures t.pcaInit == (s.pcaInit || initOk)
    ensures t.i2cReady == t.pcaInit
  {
    var ready := if s.pcaInit then true else initOk;
    s.(reset := Some(true), i2cReady := ready, pcaInit := s.pcaInit || initOk)
  }

  /** One iteration of gpio_poll_task given the level sampled now. */
  function Poll(s: Status, vdetNow: bool, initOk: bool): (t: Status)
    ensures t.vdet == Some(vdetNow)
    ensures var edge := s.vdet.Some? && s.vdet.value != vdetNow;
      && t.reset == (if edge then Some(vdetNow) else s.reset)
      && t.pcaInit == (s.pcaInit || (edge && vdetNow && initOk))
      && t.i2cReady == (if edge && vdetNow then t.pcaInit else s.i2cReady)
  {
    var last := if s.vdet.None? then vdetNow else s.vdet.value;
    if vdetNow == last then s.(vdet := Some(last))
    else if vdetNow then Released(s.(vdet := Some(true)), initOk)
    else s.(vdet := Some(false), reset := Some(false))
  }

  /** The cases of the poll step. */
  lemma PollCases(s: Status, vdetNow: bool, initOk: bool)
    ensures s.vdet.None? ==> Poll(s, vdetNow, initOk) == s.(vdet := Some(vdetNow))
    ensures s.vdet == Some(vdetNow) ==> Poll(s, vdetNow, initOk) == s
    ensures s.vdet == Some(true) && !vdetNow ==>
      Poll(s, vdetNow, initOk) == s.(vdet := Some(false), reset := Some(false))
    ensures s.vdet == Some(false) && vdetNow ==>
      var t := Poll(s, vdetNow, initOk);
      t.vdet == Some(true) && t.reset == Some(true) && t.i2cReady == t.pcaInit == (s.pcaInit || initOk)
  {
  }

  /** The hot-reset button given the level sampled at the click: with VDET high
      RESET is pulsed low and released (then initialisation as on a rising
      edge); with VDET low RESET is held low and nothing is initialized. The
      tracked VDET level is left alone either way. */
  function HotReset(s: Status, vdetNow: bool, initOk: bool): (t: Status)
    ensures t.vdet == s.vdet
    ensures vdetNow ==> t == Released(s, initOk)
    ensures !vdetNow ==> t == s.(reset := Some(false))
  {
    if vdetNow then Released(s, initOk) else s.(reset := Some(false))
  }

  /** i2c_ready is only ever set true together with an initialized device. */
  ghost predicate ReadyImpliesInit(s: Status)
  {
    s.i2cReady ==> s.pcaInit
  }

  lemma PollKeepsReady(s: Status, vdetNow: bool, initOk: bool)
    requires ReadyImpliesInit(s)
    ensures ReadyImpliesInit(Poll(s, vdetNow, initOk))
    ensures ReadyImpliesInit(HotReset(s, vdetNow, initOk))
  {
  }

  /** RESET is never held high while the tracked VDET level is low. */
  ghost predicate ResetSafe(s: Status)
  {
    s.reset == Some(true) ==> s.vdet == Some(true)
  }

  /** The poll step keeps ResetSafe, and after it a low sample always leaves
      RESET low. */
  lemma PollKeepsResetSafe(s: Status, vdetNow: bool, initOk: bool)
    requires ResetSafe(s)
    ensures ResetSafe(Poll(s, vdetNow, initOk))
    ensures !vdetNow ==> Poll(s, vdetNow, initOk).reset != Some(true)
  {
  }

  /** A hot reset clicked while VDET is high but before the poll task has seen
      it rise releases RESET with the tracked level still low. */
  lemma HotResetBeforePoll()
    ensures var s := Status(Some(false), Some(false), false, false);
      var t := HotReset(s, true, true);
      t.reset == Some(true) && t.vdet == Some(false) && !ResetSafe(t)
  {
  }

  /** The status after a run of poll steps; inits[i] is what init_device would
      report at step i. */
  function PollRun(s: Status, samples: seq<bool>, inits: seq<bool>): Status
    requires |inits| >= |samples|
    decreases |samples|
  {
    if samples == [] then s else PollRun(Poll(s, samples[0], inits[0]), samples[1..], inits[1..])
  }

  /** While VDET keeps the level already recorded, polling changes nothing. */
  lemma {:induction false} SteadyLevel(s: Status, samples: seq<bool>, inits: seq<bool>)
    requires |inits| >= |samples| && s.vdet.Some?
    requires forall i :: 0 <= i < |samples| ==> samples[i] == s.vdet.value
    ensures PollRun(s, samples, inits) == s
    decreases |samples|
  {
    if samples != [] {
      SteadyLevel(s, samples[1..], inits[1..]);
    }
  }

  /** ResetSafe holds along every run of poll steps. */
  lemma {:induction false} RunKeepsResetSafe(s: Status, samples: seq<bool>, inits: seq<bool>)
    requires |inits| >= |samples| && ResetSafe(s) && ReadyImpliesInit(s)
    ensures ResetSafe(PollRun(s, samples, inits)) && ReadyImpliesInit(PollRun(s, samples, inits))
    decreases |samples|
  {
    if samples != [] {
      PollKeepsResetSafe(s, samples[0], inits[0]);
      PollKeepsReady(s, samples[0], inits[0]);
      RunKeepsResetSafe(Poll(s, samples[0], inits[0]), samples[1..], inits[1..]);
    }
  }

  /** The status main() records at startup: the VDET level, RESET low. */
  function Startup(vdetNow: bool): (s: Status)
    ensures ResetSafe(s) && ReadyImpliesInit(s)
  {
    Status(Some(vdetNow), Some(false), false, false)
  }

  /** VDET already high when the application starts is never seen as an edge,
      so polling alone never releases RESET nor initializes the PCA9539. */
  lemma HighAtStartupKeepsReset(samples: seq<bool>, inits: seq<bool>)
    requires |inits| >= |samples|
    requires forall i :: 0 <= i < |samples| ==> samples[i]
    ensures PollRun(Startup(true), samples, inits).reset == Some(false)
    ensures !PollRun(Startup(true), samples, inits).i2cReady
  {
    SteadyLevel(Startup(true), samples, inits);
  }

  // ---------------------------------------------------------------------------
  // The channel decode of spi_reader_task
  // ---------------------------------------------------------------------------

  /** int(hex, 16) & 0xFFFF; None where int() raises. */
  function ParseWord(hex: string): (w: Option<int>)
    ensures w.Some? ==> 0 <= w.value < 65536
    ensures w.Some? <==> HexValue(hex).Some?
  {
    match HexValue(hex)
    case None => None
    case Some(v) => Some(v % 65536)
  }

  /** The word a read_nvm1(0x04, addr, 1) reply yields once int() has parsed
      its hex text: bytes 4 and 5, big-endian, when the reply reaches byte 5;
      byte 4 alone when the reply stops there; nothing (int() raises on the
      empty text) when it is shorter. */
  function Word(reply: seq<byte>): (w: Option<int>)
    ensures w.Some? ==> 0 <= w.value < 65536
  {
    if |reply| >= 6 then Some(256 * (reply[4] as int) + reply[5])
    else if |reply| == 5 then Some(reply[4])
    else None
  }

  /** Word is what the reader computes: the hex text read_nvm1 returns for one
      word, parsed by int(hex, 16) & 0xFFFF. */
  lemma WordIsParsedHex(reply: seq<byte>)
    ensures ParseWord(ToHex(Mr793200.Nvm1Data(reply, 1))) == Word(reply)
  {
    if |reply| >= 6 {
      WholeWordParses(reply);
    } else if |reply| == 5 {
      OddByteParses(reply);
    } else {
      assert Mr793200.Nvm1Data(reply, 1) == [];
    }
  }

  lemma WholeWordParses(reply: seq<byte>)
    requires |reply| >= 6
    ensures ParseWord(ToHex(Mr793200.Nvm1Data(reply, 1))) == Some(256 * (reply[4] as int) + reply[5])
  {
    var d := Mr793200.Nvm1Data(reply, 1);
    Mr793200.Nvm1SingleWord(reply);
    HexRoundTrip(d);
    BigEndianPair(d);
    ParsedWord(ToHex(d), 256 * (reply[4] as int) + reply[5]);
  }

  /** int(hex, 16) & 0xFFFF keeps a value that already fits in 16 bits. */
  lemma ParsedWord(hex: string, v: nat)
    requires HexValue(hex) == Some(v) && v < 65536
    ensures ParseWord(hex) == Some(v)
  {
  }

  lemma OddByteParses(reply: seq<byte>)
    requires |reply| == 5
    ensures ParseWord(ToHex(Mr793200.Nvm1Data(reply, 1))) == Some(reply[4])
  {
    Mr793200.Nvm1ShortWord(reply);
    ByteHexValue(reply[4]);
    ParsedWord(ToHex([reply[4]]), reply[4]);
  }

  /** (word >> idx) & 1. */
  function BitAt(word: int, idx: nat): int
  {
    Shr(word, idx) % 2
  }

  function ChannelOn(word: int, idx: nat): (on: bool)
    ensures on <==> word % Pow2(idx + 1) >= Pow2(idx)
  {
    BitIsRemainder(word, idx);
    BitAt(word, idx) == 1
  }

  /** Bit n of w is set exactly when w's remainder modulo 2^(n+1) reaches 2^n. */
  lemma {:induction false} BitIsRemainder(w: int, n: nat)
    ensures Shr(w, n) % 2 == 1 <==> w % Pow2(n + 1) >= Pow2(n)
    decreases n
  {
    if n > 0 {
      BitIsRemainder(w / 2, n - 1);
      HalfRemainder(w, Pow2(n - 1));
    }
  }

  lemma HalfRemainder(w: int, h: nat)
    requires h >= 1
    ensures (w / 2) % (2 * h) >= h <==> w % (4 * h) >= 2 * h
  {
    var q, r, b := (w / 2) / (2 * h), (w / 2) % (2 * h), w % 2;
    assert w / 2 == 2 * h * q + r;
    assert w == 4 * h * q + (2 * r + b);
    RemainderOf(w, 4 * h, q, 2 * r + b);
  }

  lemma RemainderOf(w: int, d: nat, q: int, r: int)
    requires 0 <= r < d && w == d * q + r
    ensures w % d == r
  {
    var q', r' := w / d, w % d;
    assert d * q + r == d * q' + r';
    if q > q' {
      assert d * q == d * q' + d * (q - q');
      MulAtLeast(d, q - q');
    } else if q < q' {
      assert d * q' == d * q + d * (q' - q);
      MulAtLeast(d, q' - q);
    }
  }

  lemma {:induction false} MulAtLeast(d: nat, k: int)
    requires k >= 1
    ensures d * k >= d
    decreases k
  {
    if k > 1 {
      MulAtLeast(d, k - 1);
      assert d * k == d * (k - 1) + d;
    }
  }

  /** The word holding the temperature of channel idx (0-based): pairs of
      channels share a word from 0x24 on. */
  function TempAddr(idx: nat): int
  {
    0x24 + 2 * (idx / 2)
  }

  /** The temperature of channel idx from its word: the low byte for channels
      No. 1, 3, ... (even idx), the high byte for No. 2, 4, ... */
  function TempOf(word: int, idx: nat): (t: int)
    ensures 0 <= t < 256
  {
    if idx % 2 == 0 then word % 256 else Shr(word, 8) % 256
  }

  /** Every channel's temperature word is among the words read, so the default
      0 of the lookup is never used: channel idx reads word 1 + idx / 2. */
  lemma TempAddrIsRead(idx: nat)
    requires idx < 16
    ensures TempAddr(idx) in USER_ADDRS[1..]
    ensures TempAddr(idx) == USER_ADDRS[1 + idx / 2]
  {
    UserAddrsStep();
    assert USER_ADDRS[1..][idx / 2] == USER_ADDRS[1 + idx / 2];
  }

  /** Example: on/off word 0x0001 and word 0x1234 at 0x24 give channel No. 1 on
      at 0x34 degrees and channel No. 2 off at 0x12 degrees. */
  lemma ChannelExample()
    ensures ChannelOn(0x0001, 0) && TempOf(0x1234, 0) == 0x34
    ensures !ChannelOn(0x0001, 1) && TempOf(0x1234, 1) == 0x12
  {
  }

  lemma ShrHalf(q: int, o: nat, k: nat)
    requires k > 0 && o < Pow2(k)
    ensures (Pow2(k) * q + o) / 2 == Pow2(k - 1) * q + o / 2
    ensures (Pow2(k) * q + o) % 2 == o % 2
    ensures o / 2 < Pow2(k - 1)
  {
    var p := Pow2(k - 1);
    assert Pow2(k) * q + o == 2 * (p * q + o / 2) + o % 2;
  }

  /** Below bit k, the bits of Pow2(k) * q + o are those of o. */
  lemma {:induction false} BitLow(q: int, o: nat, k: nat, n: nat)
    requires o < Pow2(k) && n < k
    ensures BitAt(Pow2(k) * q + o, n) == BitAt(o, n)
    decreases n
  {
    ShrHalf(q, o, k);
    if n > 0 {
      BitLow(q, o / 2, k - 1, n - 1);
    }
  }

  /** From bit k on, the bits of Pow2(k) * q + o are those of q. */
  lemma {:induction false} ShrHigh(q: int, o: nat, k: nat, n: nat)
    requires o < Pow2(k) && n >= k
    ensures Shr(Pow2(k) * q + o, n) == Shr(q, n - k)
    decreases k
  {
    if k > 0 {
      ShrHalf(q, o, k);
      ShrHigh(q, o / 2, k - 1, n - 1);
    }
  }

  /** The light shown for channel idx and the PCA9539 output pin it drives are
      the same bit: P0x = bit x of bank 0, P1x = bit x of bank 1. */
  lemma ChannelIsOutputPin(word: int, idx: nat)
    requires 0 <= word < 65536 && idx < 16
    ensures idx < 8 ==> ChannelOn(word, idx) == (BitAt(Out0(word), idx) == 1)
    ensures idx >= 8 ==> ChannelOn(word, idx) == (BitAt(Out1(word), idx - 8) == 1)
  {
    SplitMask(word);
    assert Pow2(8) == 256;
    assert word == Pow2(8) * Out1(word) + Out0(word);
    if idx < 8 {
      BitLow(Out1(word), Out0(word), 8, idx);
    } else {
      ShrHigh(Out1(word), Out0(word), 8, idx);
    }
  }

  /** The temperature is the byte of its word the channel's parity selects. */
  lemma TempIsByte(word: int, idx: nat)
    requires 0 <= word < 65536
    ensures TempOf(word, idx) == if idx % 2 == 0 then Out0(word) else Out1(word)
  {
    SplitMask(word);
    assert Pow2(8) == 256;
    ShrHigh(Out1(word), Out0(word), 8, 8);
  }

  /** The position of the first read whose word cannot be parsed, or the number
      of reads when all parse. */
  function FirstBadWord(replies: seq<seq<byte>>): (k: nat)
    ensures k <= |replies|
    ensures k < |replies| ==> Word(replies[k]).None?
    ensures forall i :: 0 <= i < k ==> Word(replies[i]).Some?
  {
    if replies == [] then 0
    else if Word(replies[0]).None? then 0
    else 1 + FirstBadWord(replies[1..])
  }

  /** FirstBadWord is pinned down by its contract. */
  lemma FirstBadWordIs(replies: seq<seq<byte>>, k: nat)
    requires k <= |replies| && (k < |replies| ==> Word(replies[k]).None?)
    requires forall i :: 0 <= i < k ==> Word(replies[i]).Some?
    ensures FirstBadWord(replies) == k
  {
  }

  /** One more parsed reply extends the parsed prefix. */
  lemma ParsedPrefixStep(replies: seq<seq<byte>>, k: nat)
    requires k < |replies| && Word(replies[k]).Some?
    requires forall j :: 0 <= j < k ==> Word(replies[j]).Some?
    ensures forall j :: 0 <= j < k + 1 ==> Word(replies[j]).Some?
  {
  }

  /** Storing word k at its address keeps the words stored for 1 .. k - 1. */
  lemma TempWordsStep(tempWords: map<int, int>, replies: seq<seq<byte>>, k: nat)
    requires 1 <= k < 9 && |replies| == 9
    requires forall j :: 0 <= j < k + 1 ==> Word(replies[j]).Some?
    requires forall j :: 1 <= j < k ==> USER_ADDRS[j] in tempWords && tempWords[USER_ADDRS[j]] == Word(replies[j]).value
    ensures forall j :: 1 <= j < k + 1 ==>
      USER_ADDRS[j] in tempWords[USER_ADDRS[k] := Word(replies[k]).value]
      && tempWords[USER_ADDRS[k] := Word(replies[k]).value][USER_ADDRS[j]] == Word(replies[j]).value
  {
    UserAddrsStep();
  }

  /** The first n read frames of a cycle, in order. */
  function CycleFrames(n: nat): (fs: seq<seq<int>>)
    requires n <= 9
    ensures |fs| == n
    ensures forall k :: 0 <= k < n ==> fs[k] == Mr793200.Nvm1Request(0x04, USER_ADDRS[k], 1)
  {
    seq(n, k requires 0 <= k < n => Mr793200.Nvm1Request(0x04, USER_ADDRS[k], 1))
  }

  lemma CycleFramesStep(k: nat)
    requires k < 9
    ensures CycleFrames(k + 1) == CycleFrames(k) + [Mr793200.Nvm1Request(0x04, USER_ADDRS[k], 1)]
  {
  }

  /** The output gate of the reader: outputs are pushed only with the device
      initialized, I2C ready, VDET high and RESET released. */
  predicate Gate(s: Status): (g: bool)
    ensures g ==> ResetSafe(s) && ReadyImpliesInit(s)
  {
    s.pcaInit && s.i2cReady && s.vdet == Some(true) && s.reset == Some(true)
  }

  // ---------------------------------------------------------------------------
  // Status labels
  // ---------------------------------------------------------------------------

  /** The VDET and RESET labels: "High", "Low", or "-" before a level is known. */
  function LevelLabel(level: Option<bool>): (text: string)
    ensures text == "High" <==> level == Some(true)
    ensures text == "Low" <==> level == Some(false)
    ensures text == "-" <==> level.None?
  {
    match level
    case Some(true) => "High"
    case Some(false) => "Low"
    case None => "-"
  }

  /** The I2C status label and whether it is shown green. */
  function I2cLabel(vdet: Option<bool>, reset: Option<bool>): (r: (string, bool))
    ensures r.1 <==> r.0 == "Succeeded."
    ensures r.0 == "Succeeded." <==> vdet == Some(true) && reset == Some(true)
    ensures r.0 == "Waiting reset released..." <==> vdet == Some(true) && reset == Some(false)
    ensures r.0 == "Not initialized." <==> vdet == Some(false) && reset == Some(false)
  {
    if vdet == Some(false) && reset == Some(false) then ("Not initialized.", false)
    else if vdet == Some(true) && reset == Some(false) then ("Waiting reset released...", false)
    else if vdet == Some(true) && reset == Some(true) then ("Succeeded.", true)
    else ("-", false)
  }

  /** The label reads "Succeeded." whenever the reader's output gate is open. */
  lemma GateShowsSucceeded(s: Status)
    requires Gate(s)
    ensures I2cLabel(s.vdet, s.reset).0 == "Succeeded."
  {
  }

  // ---------------------------------------------------------------------------
  // The application state
  // ---------------------------------------------------------------------------

  class AppState {
    var vdet: Option<bool>
    var reset: Option<bool>
    const pca: Pca9539Controller
    var i2cReady: bool
    var spiCtrl: Mr793200.Mr793200Controller?
    var spiRunning: bool
    var appRunning: bool
    /** Every level driven onto the RESET line, oldest first. */
    var resetWrites: seq<bool>
    /** The sixteen on/off lights (true: the "on" image). */
    const lights: array<bool>
    /** The sixteen temperature labels (None: "-°C"). */
    const temps: array<Option<int>>

    predicate Valid()
      reads this, pca
    {
      lights.Length == 16 && temps.Length == 16 && pca.Valid()
    }

    /** The status the poll step and the hot reset work on. */
    function Snapshot(): Status
      reads this, pca
    {
      Status(vdet, reset, i2cReady, pca.initialized)
    }

    constructor ()
      ensures Valid() && fresh(pca) && fresh(lights) && fresh(temps)
      ensures Snapshot() == Status(None, None, false, false)
      ensures !pca.busOpen && pca.ops == []
      ensures spiCtrl == null && !spiRunning && appRunning && resetWrites == []
      ensures forall i :: 0 <= i < 16 ==> !lights[i] && temps[i].None?
    {
      vdet := None;
      reset := None;
      pca := new Pca9539Controller();
      i2cReady := false;
      spiCtrl := null;
      spiRunning := false;
      appRunning := true;
      resetWrites := [];
      lights := new bool[16](_ => false);
      temps := new Option<int>[16](_ => None);
    }

    /** main(): record the VDET level and drive RESET low's tracked state. */
    method RecordStartup(vdetNow: bool)
      modifies this
      ensures Snapshot() == Startup(vdetNow).(i2cReady := old(i2cReady), pcaInit := pca.initialized)
      ensures resetWrites == old(resetWrites)
      ensures spiCtrl == old(spiCtrl) && spiRunning == old(spiRunning) && appRunning == old(appRunning)
    {
      vdet := Some(vdetNow);
      reset := Some(false);
    }

    /** One iteration of gpio_poll_task; io answers init_device's bus operations. */
    method PollStep(vdetNow: bool, io: seq<Reply>)
      requires Valid() && |io| >= 13
      modifies this, pca
      ensures Valid()
      ensures Snapshot() == Poll(old(Snapshot()), vdetNow, InitVerified(old(pca.busOpen), io))
      ensures var edge := old(vdet).Some? && old(vdet) != Some(vdetNow);
        && resetWrites == old(resetWrites) + (if edge then [vdetNow] else [])
        && pca.ops == old(pca.ops) + (if edge && vdetNow && !old(pca.initialized) then InitTrace(old(pca.busOpen), io) else [])
        && pca.busOpen == (old(pca.busOpen) || (edge && vdetNow && !old(pca.initialized) && io[0].Done?))
      ensures spiCtrl == old(spiCtrl) && spiRunning == old(spiRunning) && appRunning == old(appRunning)
    {
      if vdet.None? {
        vdet := Some(vdetNow);
      }
      if Some(vdetNow) != vdet {
        vdet := Some(vdetNow);
        if vdetNow {
          resetWrites := resetWrites + [true];
          reset := Some(true);
          if !pca.initialized {
            var ok := pca.InitDevice(io);
            i2cReady := ok;
          } else {
            i2cReady := true;
          }
        } else {
          resetWrites := resetWrites + [false];
          reset := Some(false);
        }
      }
    }

    /** on_hot_reset_click with the level sampled at the click. */
    method HotResetClick(vdetNow: bool, io: seq<Reply>)
      requires Valid() && |io| >= 13
      modifies this, pca
      ensures Valid()
      ensures Snapshot() == HotReset(old(Snapshot()), vdetNow, InitVerified(old(pca.busOpen), io))
      ensures resetWrites == old(resetWrites) + (if vdetNow then [false, true] else [false])
      ensures pca.ops == old(pca.ops) + (if vdetNow && !old(pca.initialized) then InitTrace(old(pca.busOpen), io) else [])
      ensures pca.busOpen == (old(pca.busOpen) || (vdetNow && !old(pca.initialized) && io[0].Done?))
      ensures spiCtrl == old(spiCtrl) && spiRunning == old(spiRunning) && appRunning == old(appRunning)
    {
      if vdetNow {
        resetWrites := resetWrites + [false];
        reset := Some(false);
        resetWrites := resetWrites + [true];
        reset := Some(true);
        if !pca.initialized {
          var ok := pca.InitDevice(io);
          i2cReady := ok;
        } else {
          i2cReady := true;
        }
      } else {
        resetWrites := resetWrites + [false];
        reset := Some(false);
      }
    }

    /** The start of spi_reader_task: a controller (when constructing it does not
        fail) and the running flag. */
    method StartReader(controllerOk: bool)
      modifies this
      ensures controllerOk ==> spiCtrl != null && fresh(spiCtrl) && spiCtrl.sent == [] && spiRunning
      ensures !controllerOk ==> spiCtrl == null && spiRunning == old(spiRunning)
      ensures Snapshot() == old(Snapshot())
      ensures resetWrites == old(resetWrites) && appRunning == old(appRunning)
    {
      if !controllerOk {
        spiCtrl := null;
        return;
      }
      spiCtrl := new Mr793200.Mr793200Controller();
      spiRunning := true;
    }

    /** read_nvm1(0x04, addr, 1) followed by int(hex, 16) & 0xFFFF. */
    method ReadWord(addr: int, reply: seq<byte>) returns (w: Option<int>)
      requires spiCtrl != null
      modifies spiCtrl
      ensures spiCtrl.sent == old(spiCtrl.sent) + [Mr793200.Nvm1Request(0x04, addr, 1)]
      ensures w == Word(reply)
    {
      var hex := spiCtrl.ReadNvm1(0x04, addr, 1, reply);
      w := ParseWord(hex);
      WordIsParsedHex(reply);
    }

    /** The nine reads of one reader iteration: the on/off word, then the eight
        temperature words into a dictionary keyed by address. The first word
        that does not parse raises and ends the reads. */
    method ReadWords(replies: seq<seq<byte>>) returns (onOff: Option<int>, tempWords: map<int, int>)
      requires spiCtrl != null && |replies| == 9
      modifies spiCtrl
      ensures spiCtrl.sent == old(spiCtrl.sent) + CycleFrames(Min(FirstBadWord(replies) + 1, 9))
      ensures onOff.Some? <==> FirstBadWord(replies) == 9
      ensures onOff.Some? ==> onOff == Word(replies[0])
      ensures onOff.Some? ==> forall j :: 1 <= j < 9 ==>
        USER_ADDRS[j] in tempWords && tempWords[USER_ADDRS[j]] == Word(replies[j]).value
    {
      tempWords := map[];
      onOff := ReadWord(USER_ADDRS[0], replies[0]);
      if onOff.None? {
        FirstBadWordIs(replies, 0);
        CycleFramesStep(0);
        return;
      }
      UserAddrsStep();
      for k := 1 to 9
        invariant spiCtrl.sent == old(spiCtrl.sent) + CycleFrames(k)
        invariant forall j :: 0 <= j < k ==> Word(replies[j]).Some?
        invariant forall j :: 1 <= j < k ==> USER_ADDRS[j] in tempWords && tempWords[USER_ADDRS[j]] == Word(replies[j]).value
      {
        var addr := USER_ADDRS[k];
        var w := ReadWord(addr, replies[k]);
        CycleFramesStep(k);
        if w.None? {
          FirstBadWordIs(replies, k);
          onOff := None;
          return;
        }
        ParsedPrefixStep(replies, k);
        TempWordsStep(tempWords, replies, k);
        tempWords := tempWords[addr := w.value];
      }
      FirstBadWordIs(replies, 9);
    }

    /** The display half of a reader iteration: light idx shows bit idx of the
        on/off word, temperature idx the byte of its word the parity selects. */
    method ShowChannels(onOff: int, tempWords: map<int, int>, ghost words: seq<Option<int>>)
      requires Valid() && |words| == 9
      requires forall j :: 1 <= j < 9 ==> words[j].Some? && USER_ADDRS[j] in tempWords && tempWords[USER_ADDRS[j]] == words[j].value
      modifies lights, temps
      ensures forall idx :: 0 <= idx < 16 ==>
        && lights[idx] == ChannelOn(onOff, idx)
        && temps[idx] == Some(TempOf(words[1 + idx / 2].value, idx))
    {
      for idx := 0 to 16
        invariant forall i :: 0 <= i < idx ==>
          && lights[i] == ChannelOn(onOff, i)
          && temps[i] == Some(TempOf(words[1 + i / 2].value, i))
      {
        lights[idx] := ChannelOn(onOff, idx);
        var addr := 0x24 + 2 * (idx / 2);
        TempAddrIsRead(idx);
        var word := if addr in tempWords then tempWords[addr] else 0;
        temps[idx] := Some(if idx % 2 == 0 then word % 256 else Shr(word, 8) % 256);
      }
    }

    /** One iteration of the reader loop: read the nine words (an unparsable one
        raises and ends the iteration before anything is shown), update the
        sixteen lights and temperatures, then push the on/off word through the
        output gate. replies[k] is the reply to the read of USER_ADDRS[k]; io
        answers set_outputs_16. */
    method ReadCycle(replies: seq<seq<byte>>, io: seq<Reply>) returns (completed: bool)
      requires Valid() && spiCtrl != null && |replies| == 9 && |io| >= 4
      modifies spiCtrl, pca, lights, temps
      ensures Valid()
      ensures completed <==> FirstBadWord(replies) == 9
      ensures spiCtrl.sent == old(spiCtrl.sent) + CycleFrames(Min(FirstBadWord(replies) + 1, 9))
      ensures !completed ==> unchanged(lights, temps, pca)
      ensures completed ==> forall idx :: 0 <= idx < 16 ==>
        && lights[idx] == ChannelOn(Word(replies[0]).value, idx)
        && temps[idx] == Some(TempOf(Word(replies[1 + idx / 2]).value, idx))
      ensures completed && Gate(Snapshot()) ==> pca.ops == old(pca.ops) + Attempted(OutputSteps(Word(replies[0]).value), io)
      ensures !(completed && Gate(Snapshot())) ==> unchanged(pca)
      ensures pca.busOpen == old(pca.busOpen) && pca.initialized == old(pca.initialized)
    {
      var onOff, tempWords := ReadWords(replies);
      if onOff.None? {
        return false;
      }
      ghost var words := seq(9, j requires 0 <= j < 9 => Word(replies[j]));
      ShowChannels(onOff.value, tempWords, words);
      if pca.initialized && i2cReady && vdet == Some(true) && reset == Some(true) {
        var ok := pca.SetOutputs16(onOff.value, io);
      }
      return true;
    }

    /** The end of spi_reader_task: the controller is dropped. */
    method FinishReader()
      modifies this
      ensures spiCtrl == null && Snapshot() == old(Snapshot())
      ensures spiRunning == old(spiRunning) && appRunning == old(appRunning) && resetWrites == old(resetWrites)
    {
      spiCtrl := null;
    }

    /** Every light off and every temperature back to "-°C". */
    method ClearChannels()
      requires Valid()
      modifies lights, temps
      ensures forall i :: 0 <= i < 16 ==> !lights[i] && temps[i].None?
    {
      for i := 0 to 16
        invariant forall j :: 0 <= j < i ==> !lights[j] && temps[j].None?
      {
        lights[i] := false;
        temps[i] := None;
      }
    }

    /** Stop: the reader is asked to stop, every light goes off and every
        temperature back to "-°C", and an initialized PCA9539 gets all outputs
        low. The bus stays open and the device initialized. */
    method Stop(io: seq<Reply>)
      requires Valid() && |io| >= 4
      modifies this, pca, lights, temps
      ensures Valid() && !spiRunning
      ensures forall i :: 0 <= i < 16 ==> !lights[i] && temps[i].None?
      ensures Snapshot() == old(Snapshot())
      ensures old(pca.initialized) ==> pca.ops == old(pca.ops) + Attempted(OutputSteps(0), io)
      ensures !old(pca.initialized) ==> pca.ops == old(pca.ops)
      ensures pca.busOpen == old(pca.busOpen)
      ensures spiCtrl == old(spiCtrl) && appRunning == old(appRunning) && resetWrites == old(resetWrites)
    {
      spiRunning := false;
      ClearChannels();
      if pca.initialized {
        var ok := pca.SetOutputs16(0x0000, io);
      }
    }

    /** Window close: both tasks are asked to stop and the PCA9539 is shut down
        (outputs low, bus closed). */
    method Close(io: seq<Reply>)
      requires Valid() && |io| >= 2
      modifies this, pca
      ensures Valid() && !appRunning && !spiRunning
      ensures !pca.busOpen && !pca.initialized
      ensures old(pca.busOpen) ==> pca.ops == old(pca.ops) + ShutdownTrace(io)
      ensures !old(pca.busOpen) ==> pca.ops == old(pca.ops)
      ensures vdet == old(vdet) && reset == old(reset) && i2cReady == old(i2cReady)
      ensures resetWrites == old(resetWrites) && spiCtrl == old(spiCtrl)
    {
      appRunning := false;
      spiRunning := false;
      pca.ShutdownSafe(io);
    }
  }
}
