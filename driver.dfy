/** The driver monitor application (src/driver/main_rp.py): the MR793200
    poller's decode cycle (two user-memory words, four 4-bit fields each, with
    out-of-range fields replaced by the last accepted value), its once-only
    cleanup flag, and the bar colouring of the four seat panels. The polling
    thread, its one-second pacing and the widgets are not modelled: a cycle is
    one method call, a bar is an array element holding an abstract colour. */
module Driver {
  import opened Base
  import Mr793200

  const FAN_BAR_COUNT: nat := 10
  const SEAT_BAR_COUNT: nat := 3

  /** The four seats, in the order the decoded dictionaries list them. */
  datatype Position = FL | FR | RL | RR

  const Positions: seq<Position> := [FL, FR, RL, RR]

  lemma PositionCases(p: Position)
    ensures p == FL || p == FR || p == RL || p == RR
    ensures p in Positions
  {
  }

  /** The bit offset of a seat's field within a word. */
  function Shift(p: Position): nat
  {
    match p
    case FL => 0
    case FR => 4
    case RL => 8
    case RR => 12
  }

  /** (w >> Shift(p)) & 0xF. */
  function Nibble(w: int, p: Position): (n: int)
    ensures 0 <= n < 16
  {
    Shr(w, Shift(p)) % 16
  }

  /** Fan fields 0xB..0xF and seat fields 0x4..0xF are not levels. */
  const FAN_INVALID_FROM: int := 0xB
  const SEAT_INVALID_FROM: int := 0x4

  /** One field after the carry-forward rule: a field in [invalidFrom, 0xF]
      is replaced by the previous accepted value. */
  function Accept(prev: int, raw: int, invalidFrom: int): (v: int)
    requires 0 <= raw < 16
    ensures raw < invalidFrom ==> v == raw
    ensures raw >= invalidFrom ==> v == prev
  {
    if invalidFrom <= raw <= 0xF then prev else raw
  }

  /** A value per seat. */
  type Levels = map<Position, int>

  ghost predicate Complete(m: Levels)
  {
    forall p: Position :: p in m
  }

  /** Every seat's value lies in 0..bound. */
  ghost predicate Bounded(m: Levels, bound: int)
    requires Complete(m)
  {
    forall p: Position :: 0 <= m[p] <= bound
  }

  /** The four fields of w, seat by seat. */
  function Fields(w: int): (m: Levels)
    ensures Complete(m)
    ensures forall p: Position :: m[p] == Nibble(w, p)
  {
    var m := map[FL := Nibble(w, FL), FR := Nibble(w, FR), RL := Nibble(w, RL), RR := Nibble(w, RR)];
    assert forall p: Position :: p in m && m[p] == Nibble(w, p) by {
      forall p: Position
        ensures p in m && m[p] == Nibble(w, p)
      {
        PositionCases(p);
      }
    }
    m
  }

  /** The four fields of w after the carry-forward rule against prev. */
  function Filtered(w: int, prev: Levels, invalidFrom: int): (m: Levels)
    requires Complete(prev)
    ensures Complete(m)
    ensures forall p: Position :: m[p] == Accept(prev[p], Nibble(w, p), invalidFrom)
  {
    var m := map p: Position | p in Positions :: Accept(prev[p], Nibble(w, p), invalidFrom);
    assert forall p: Position :: p in m by {
      forall p: Position
        ensures p in m
      {
        PositionCases(p);
      }
    }
    m
  }

  /** Carry-forward keeps values below the invalid range: a fan value stays in
      0..10 and a seat value in 0..3 whenever the previous ones were. */
  lemma FilteredBounded(w: int, prev: Levels, invalidFrom: int)
    requires Complete(prev) && 1 <= invalidFrom <= 16 && Bounded(prev, invalidFrom - 1)
    ensures Bounded(Filtered(w, prev, invalidFrom), invalidFrom - 1)
  {
  }

  /** The carried-forward fields of w make up Filtered, replace every stored
      value on update, and keep the bound of the stored values. */
  lemma UpdateIsFiltered(w: int, prev: Levels, vals: Levels, invalidFrom: int)
    requires Complete(prev) && Complete(vals)
    requires forall p: Position :: vals[p] == Accept(prev[p], Nibble(w, p), invalidFrom)
    ensures vals == Filtered(w, prev, invalidFrom) && prev + vals == vals
    ensures 1 <= invalidFrom <= 16 && Bounded(prev, invalidFrom - 1) ==> Bounded(vals, invalidFrom - 1)
  {
    var f := Filtered(w, prev, invalidFrom);
    forall p: Position
      ensures p in vals.Keys && p in f.Keys
    {
      PositionCases(p);
    }
    assert vals.Keys == f.Keys;
    assert (prev + vals).Keys == vals.Keys;
  }

  /** The fan word of a whole read_nvm4(0x04, 0x22, 2) reply (first data word). */
  function FanWord(reply: seq<byte>): int
    requires |reply| >= 12
  {
    256 * (reply[4] as int) + reply[5]
  }

  /** The seat-heater word of a whole reply (second data word). */
  function SeatWord(reply: seq<byte>): int
    requires |reply| >= 12
  {
    256 * (reply[8] as int) + reply[9]
  }

  /** The block-mode hex text of a whole two-word reply is eight characters
      whose halves read back as the two big-endian data words. */
  lemma UserWordsOfHex(reply: seq<byte>)
    requires |reply| >= 12
    ensures Upper(Upper(ToHex(Mr793200.Nvm4Data(reply, 2)))) == Upper(ToHex(Mr793200.Nvm4Data(reply, 2)))
    ensures |Upper(ToHex(Mr793200.Nvm4Data(reply, 2)))| == 8
    ensures HexValue(Upper(ToHex(Mr793200.Nvm4Data(reply, 2)))[0..4]) == Some(FanWord(reply))
    ensures HexValue(Upper(ToHex(Mr793200.Nvm4Data(reply, 2)))[4..8]) == Some(SeatWord(reply))
  {
    var d := Mr793200.Nvm4Data(reply, 2);
    UpperIdempotent(ToHex(d));
    HexWords(d);
  }

  // ---------------------------------------------------------------------------
  // Carry-forward over a run of cycles, for one seat
  // ---------------------------------------------------------------------------

  /** The values published for one seat over a run of raw fields, starting from
      the stored previous value. */
  function Published(prev: int, raws: seq<int>, invalidFrom: int): (out: seq<int>)
    requires forall i :: 0 <= i < |raws| ==> 0 <= raws[i] < 16
    ensures |out| == |raws|
    decreases |raws|
  {
    if raws == [] then []
    else
      var v := Accept(prev, raws[0], invalidFrom);
      [v] + Published(v, raws[1..], invalidFrom)
  }

  /** The last valid field of a run, or `init` when there is none. */
  function LastValid(init: int, raws: seq<int>, invalidFrom: int): int
    decreases |raws|
  {
    if raws == [] then init
    else if raws[|raws| - 1] < invalidFrom then raws[|raws| - 1]
    else LastValid(init, raws[..|raws| - 1], invalidFrom)
  }

  lemma {:induction false} LastValidAppend(init: int, raws: seq<int>, x: int, invalidFrom: int)
    ensures LastValid(init, raws + [x], invalidFrom) == if x < invalidFrom then x else LastValid(init, raws, invalidFrom)
  {
    assert (raws + [x])[..|raws|] == raws;
  }

  lemma {:induction false} LastValidCons(init: int, x: int, raws: seq<int>, invalidFrom: int)
    ensures LastValid(init, [x] + raws, invalidFrom) == LastValid(if x < invalidFrom then x else init, raws, invalidFrom)
    decreases |raws|
  {
    if raws == [] {
      assert [x] + raws == [] + [x];
      LastValidAppend(init, [], x, invalidFrom);
    } else {
      var front := raws[..|raws| - 1];
      var last := raws[|raws| - 1];
      assert [x] + raws == ([x] + front) + [last];
      assert raws == front + [last];
      LastValidAppend(init, [x] + front, last, invalidFrom);
      LastValidAppend(if x < invalidFrom then x else init, front, last, invalidFrom);
      LastValidCons(init, x, front, invalidFrom);
    }
  }

  /** Every published value is the last valid field seen so far, or the
      starting value while no valid field has arrived: an invalid field never
      changes what is shown nor what is stored. */
  lemma {:induction false} PublishedIsLastValid(prev: int, raws: seq<int>, invalidFrom: int, i: nat)
    requires forall k :: 0 <= k < |raws| ==> 0 <= raws[k] < 16
    requires i < |raws|
    ensures Published(prev, raws, invalidFrom)[i] == LastValid(prev, raws[..i + 1], invalidFrom)
    decreases i
  {
    var v := Accept(prev, raws[0], invalidFrom);
    assert raws[..1] == [] + [raws[0]];
    LastValidAppend(prev, [], raws[0], invalidFrom);
    if i > 0 {
      PublishedIsLastValid(v, raws[1..], invalidFrom, i - 1);
      assert raws[..i + 1] == [raws[0]] + raws[1..][..i];
      LastValidCons(prev, raws[0], raws[1..][..i], invalidFrom);
    }
  }

  /** Published values stay in 0..invalidFrom-1 when the starting value does. */
  lemma {:induction false} PublishedBounded(prev: int, raws: seq<int>, invalidFrom: int)
    requires forall i :: 0 <= i < |raws| ==> 0 <= raws[i] < 16
    requires 0 <= prev < invalidFrom
    ensures forall i :: 0 <= i < |raws| ==> 0 <= Published(prev, raws, invalidFrom)[i] < invalidFrom
    decreases |raws|
  {
    if raws != [] {
      PublishedBounded(Accept(prev, raws[0], invalidFrom), raws[1..], invalidFrom);
    }
  }

  /** Fan fields 3, 0xC, 5 publish 3, 3, 5; seat fields 1, 4, 2 publish 1, 1, 2. */
  lemma CarryForwardExample()
    ensures Published(0, [3, 0xC, 5], FAN_INVALID_FROM) == [3, 3, 5]
    ensures Published(0, [1, 4, 2], SEAT_INVALID_FROM) == [1, 1, 2]
  {
  }

  // ---------------------------------------------------------------------------
  // The poller
  // ---------------------------------------------------------------------------

  /** The side effects of the poller's setup and cleanup, in order. */
  datatype Action = SpiEnHigh | SpiEnCleanup | SpiClose

  class Mr793200Poller {
    var controller: Mr793200.Mr793200Controller?
    var stopRequested: bool
    var cleanedUp: bool
    var prevFan: Levels
    var prevSeat: Levels
    /** Every GPIO and SPI setup or teardown step attempted, oldest first. */
    var actions: seq<Action>

    /** The stored previous values: one per seat, fan in 0..10, seat in 0..3. */
    ghost predicate Valid()
      reads this
    {
      && Complete(prevFan) && Complete(prevSeat)
      && Bounded(prevFan, FAN_INVALID_FROM - 1) && Bounded(prevSeat, SEAT_INVALID_FROM - 1)
    }

    constructor ()
      ensures Valid() && controller == null && !cleanedUp && !stopRequested && actions == []
      ensures forall p: Position :: prevFan[p] == 0 && prevSeat[p] == 0
    {
      controller := null;
      stopRequested := false;
      cleanedUp := false;
      prevFan := map[FL := 0, FR := 0, RL := 0, RR := 0];
      prevSeat := map[FL := 0, FR := 0, RL := 0, RR := 0];
      actions := [];
      new;
      forall p: Position
        ensures p in prevFan && p in prevSeat && prevFan[p] == 0 && prevSeat[p] == 0
      {
        PositionCases(p);
      }
    }

    /** safe_cleanup: the first call releases the SPI_EN pin and closes the SPI
        port (when there is a controller); a failure of either is swallowed, so
        their outcome does not matter. Later calls do nothing. */
    method SafeCleanup()
      modifies this
      ensures cleanedUp
      ensures old(cleanedUp) ==> actions == old(actions)
      ensures !old(cleanedUp) ==> actions == old(actions) + [SpiEnCleanup] + (if controller != null then [SpiClose] else [])
      ensures controller == old(controller) && prevFan == old(prevFan) && prevSeat == old(prevSeat)
      ensures stopRequested == old(stopRequested)
    {
      if !cleanedUp {
        actions := actions + [SpiEnCleanup];
        if controller != null {
          actions := actions + [SpiClose];
        }
        cleanedUp := true;
      }
    }

    /** start: re-arms the cleanup, drives SPI_EN high, makes a fresh
        controller and reads the 6-word TID once (None when the read raises).
        The stored previous values are kept from the last run. */
    method Start(tidReply: seq<byte>) returns (tid: Option<string>)
      requires Valid()
      modifies this
      ensures Valid() && !cleanedUp && !stopRequested
      ensures prevFan == old(prevFan) && prevSeat == old(prevSeat)
      ensures actions == old(actions) + [SpiEnHigh]
      ensures controller != null && fresh(controller)
      ensures controller.sent == [Mr793200.Nvm4Request(0x04, 0x16, 6)]
      ensures tid.None? <==> |tidReply| < 4 + 4 * 6
      ensures tid.Some? ==> tid.value == Upper(ToHex(Mr793200.Nvm4Data(tidReply, 6)))
    {
      stopRequested := false;
      cleanedUp := false;
      actions := actions + [SpiEnHigh];
      controller := new Mr793200.Mr793200Controller();
      var r := controller.ReadNvm4(0x04, 0x16, 6, tidReply);
      if r.Err? {
        tid := None;
      } else {
        UpperIdempotent(ToHex(Mr793200.Nvm4Data(tidReply, 6)));
        tid := Some(Upper(r.value));
      }
    }

    /** stop: ask the thread to stop, then clean up (once). */
    method Stop()
      modifies this
      ensures stopRequested && cleanedUp
      ensures old(cleanedUp) ==> actions == old(actions)
      ensures !old(cleanedUp) ==> actions == old(actions) + [SpiEnCleanup] + (if controller != null then [SpiClose] else [])
      ensures controller == old(controller) && prevFan == old(prevFan) && prevSeat == old(prevSeat)
    {
      stopRequested := true;
      SafeCleanup();
    }

    /** Replace the invalid fields of `vals` by the stored previous values, in
        place, seat by seat. */
    method CarryForward(vals: Levels, prev: Levels, invalidFrom: int) returns (out: Levels)
      requires Complete(vals) && Complete(prev)
      requires forall p: Position :: 0 <= vals[p] < 16
      ensures Complete(out)
      ensures forall p: Position :: out[p] == Accept(prev[p], vals[p], invalidFrom)
    {
      out := vals;
      for i := 0 to 4
        invariant Complete(out)
        invariant forall j :: 0 <= j < i ==> out[Positions[j]] == Accept(prev[Positions[j]], vals[Positions[j]], invalidFrom)
        invariant forall j :: i <= j < 4 ==> out[Positions[j]] == vals[Positions[j]]
      {
        var k := Positions[i];
        if invalidFrom <= out[k] <= 0xF {
          out := out[k := prev[k]];
        }
      }
      forall p: Position
        ensures out[p] == Accept(prev[p], vals[p], invalidFrom)
      {
        PositionCases(p);
      }
    }

    /** The read and parse at the head of the polling loop:
        read_nvm4(0x04, 0x22, 2), upper-cased, then characters [0, 4) and
        [4, 8) read as hex. A short reply raises, and so does hex text shorter
        than eight characters (which a whole reply never gives). */
    method ReadUserWords(reply: seq<byte>) returns (words: Option<(int, int)>)
      requires controller != null
      modifies controller
      ensures controller.sent == old(controller.sent) + [Mr793200.Nvm4Request(0x04, 0x22, 2)]
      ensures words.None? <==> |reply| < 12
      ensures words.Some? ==> words.value == (FanWord(reply), SeatWord(reply))
    {
      var r := controller.ReadNvm4(0x04, 0x22, 2, reply);
      if r.Err? {
        return None;
      }
      var dataHex := Upper(r.value);
      UserWordsOfHex(reply);
      if |dataHex| < 8 {
        return None;
      }
      var w1 := HexValue(dataHex[0..4]).value;
      var w2 := HexValue(dataHex[4..8]).value;
      return Some((w1, w2));
    }

    /** One iteration of the polling loop: read two words of user memory at
        0x0422 in block mode, split each into four fields, carry invalid fields
        forward, store and publish. A short reply raises inside the loop, which
        leaves the stored values as they were and publishes nothing. */
    method Cycle(reply: seq<byte>) returns (published: Option<(Levels, Levels)>)
      requires Valid() && controller != null
      modifies this, controller
      ensures Valid()
      ensures controller == old(controller)
      ensures controller.sent == old(controller.sent) + [Mr793200.Nvm4Request(0x04, 0x22, 2)]
      ensures published.None? <==> |reply| < 12
      ensures published.Some? ==>
        && published.value.0 == Filtered(FanWord(reply), old(prevFan), FAN_INVALID_FROM)
        && published.value.1 == Filtered(SeatWord(reply), old(prevSeat), SEAT_INVALID_FROM)
        && prevFan == published.value.0 && prevSeat == published.value.1
      ensures published.None? ==> prevFan == old(prevFan) && prevSeat == old(prevSeat)
      ensures cleanedUp == old(cleanedUp) && stopRequested == old(stopRequested) && actions == old(actions)
    {
      var words := ReadUserWords(reply);
      if words.None? {
        return None;
      }
      var (w1, w2) := words.value;
      var fanVals, seatVals := StoreLevels(w1, w2);
      return Some((fanVals, seatVals));
    }

    /** The levels a cycle computes: split both words into fields and carry
        the invalid fields forward from the stored values. */
    method NextLevels(w1: int, w2: int, oldFan: Levels, oldSeat: Levels) returns (fanVals: Levels, seatVals: Levels)
      requires Complete(oldFan) && Complete(oldSeat)
      requires Bounded(oldFan, FAN_INVALID_FROM - 1) && Bounded(oldSeat, SEAT_INVALID_FROM - 1)
      ensures fanVals == Filtered(w1, oldFan, FAN_INVALID_FROM) && oldFan + fanVals == fanVals
      ensures seatVals == Filtered(w2, oldSeat, SEAT_INVALID_FROM) && oldSeat + seatVals == seatVals
      ensures Bounded(fanVals, FAN_INVALID_FROM - 1) && Bounded(seatVals, SEAT_INVALID_FROM - 1)
    {
      fanVals := Fields(w1);
      seatVals := Fields(w2);
      fanVals := CarryForward(fanVals, oldFan, FAN_INVALID_FROM);
      seatVals := CarryForward(seatVals, oldSeat, SEAT_INVALID_FROM);
      UpdateIsFiltered(w1, oldFan, fanVals, FAN_INVALID_FROM);
      UpdateIsFiltered(w2, oldSeat, seatVals, SEAT_INVALID_FROM);
    }

    /** The storing half of a cycle: update the stored previous values with
        the levels NextLevels computes. */
    method StoreLevels(w1: int, w2: int) returns (fanVals: Levels, seatVals: Levels)
      requires Valid()
      modifies this
      ensures Valid()
      ensures fanVals == Filtered(w1, old(prevFan), FAN_INVALID_FROM) && prevFan == fanVals
      ensures seatVals == Filtered(w2, old(prevSeat), SEAT_INVALID_FROM) && prevSeat == seatVals
      ensures controller == old(controller) && cleanedUp == old(cleanedUp)
      ensures stopRequested == old(stopRequested) && actions == old(actions)
    {
      fanVals, seatVals := NextLevels(w1, w2, prevFan, prevSeat);
      prevFan, prevSeat := prevFan + fanVals, prevSeat + seatVals;
    }
  }

  // ---------------------------------------------------------------------------
  // Bars
  // ---------------------------------------------------------------------------

  /** The colours the bars take. */
  datatype Color = Grey300 | LightBlue(shade: nat) | Orange(shade: nat) | DeepOrangeAccent700

  const FAN_LIGHT_BLUE_PALETTE: seq<Color> := [
    LightBlue(50), LightBlue(100), LightBlue(200), LightBlue(300), LightBlue(400),
    LightBlue(500), LightBlue(600), LightBlue(700), LightBlue(800), LightBlue(900)]

  const FAN_ORANGE_PALETTE: seq<Color> := [
    Orange(100), Orange(200), Orange(300), Orange(400), Orange(500),
    Orange(600), Orange(700), Orange(800), Orange(900), DeepOrangeAccent700]

  const SEAT_ORANGE_PALETTE: seq<Color> := [Orange(300), Orange(500), Orange(700)]

  /** The fan palette: light blue with the seat heater off, orange otherwise. */
  function FanPalette(seatLevel: int): (pal: seq<Color>)
    ensures |pal| == FAN_BAR_COUNT
    ensures forall i :: 0 <= i < |pal| ==> pal[i] != Grey300
    ensures forall i :: 0 <= i < |pal| ==> (pal[i].LightBlue? <==> seatLevel == 0)
  {
    if seatLevel == 0 then FAN_LIGHT_BLUE_PALETTE else FAN_ORANGE_PALETTE
  }

  /** The colours set_fan_bars_color_and_active gives the ten fan bars. */
  function FanBarColors(activeCount: int, seatLevel: int): (cs: seq<Color>)
    ensures |cs| == FAN_BAR_COUNT
    ensures forall i :: 0 <= i < |cs| ==> (cs[i] != Grey300 <==> i < activeCount)
    ensures forall i :: 0 <= i < |cs| && i < activeCount ==> cs[i] == FanPalette(seatLevel)[i]
  {
    var palette := FanPalette(seatLevel);
    seq(FAN_BAR_COUNT, i requires 0 <= i < FAN_BAR_COUNT =>
      if i < activeCount then palette[i] else Grey300)
  }

  /** The colours set_seat_bars_color_and_active gives the three seat bars. */
  function SeatBarColors(level: int): (cs: seq<Color>)
    ensures |cs| == SEAT_BAR_COUNT
    ensures forall i :: 0 <= i < |cs| ==> (cs[i] != Grey300 <==> i < level)
    ensures forall i :: 0 <= i < |cs| && i < level ==> cs[i] == SEAT_ORANGE_PALETTE[i]
  {
    seq(SEAT_BAR_COUNT, i requires 0 <= i < SEAT_BAR_COUNT =>
      if i < level then SEAT_ORANGE_PALETTE[i] else Grey300)
  }

  /** How many bars are coloured. */
  function Lit(cs: seq<Color>): nat
  {
    if cs == [] then 0 else Lit(cs[..|cs| - 1]) + (if cs[|cs| - 1] != Grey300 then 1 else 0)
  }

  function Clamp(n: int, hi: nat): nat
  {
    if n < 0 then 0 else if n > hi then hi else n
  }

  /** When exactly the first n positions are coloured, n of them are lit. */
  lemma {:induction false} LitPrefix(cs: seq<Color>, n: int)
    requires forall i :: 0 <= i < |cs| ==> (cs[i] != Grey300 <==> i < n)
    ensures Lit(cs) == Clamp(n, |cs|)
    decreases |cs|
  {
    if cs != [] {
      LitPrefix(cs[..|cs| - 1], n);
    }
  }

  /** min(active_count, 10) fan bars are coloured (none for a negative count). */
  lemma FanBarsLit(activeCount: int, seatLevel: int)
    ensures Lit(FanBarColors(activeCount, seatLevel)) == Clamp(activeCount, FAN_BAR_COUNT)
  {
    LitPrefix(FanBarColors(activeCount, seatLevel), activeCount);
  }

  lemma SeatBarsLit(level: int)
    ensures Lit(SeatBarColors(level)) == Clamp(level, SEAT_BAR_COUNT)
  {
    LitPrefix(SeatBarColors(level), level);
  }

  /** With stored values in range (fan 0..10, seat 0..3, which every cycle
      keeps), a seat panel lights exactly as many fan bars as its fan level and
      as many seat bars as its heater level. */
  lemma PanelShowsLevels(fan: Levels, seat: Levels, p: Position)
    requires Complete(fan) && Complete(seat)
    requires Bounded(fan, FAN_INVALID_FROM - 1) && Bounded(seat, SEAT_INVALID_FROM - 1)
    ensures Lit(FanBarColors(fan[p], seat[p])) == fan[p]
    ensures Lit(SeatBarColors(seat[p])) == seat[p]
  {
    FanBarsLit(fan[p], seat[p]);
    SeatBarsLit(seat[p]);
  }

  /** set_fan_bars_color_and_active on a list of at least ten bars. */
  method SetFanBars(bars: array<Color>, activeCount: int, seatLevel: int)
    requires bars.Length >= FAN_BAR_COUNT
    modifies bars
    ensures bars[..FAN_BAR_COUNT] == FanBarColors(activeCount, seatLevel)
    ensures bars[FAN_BAR_COUNT..] == old(bars[FAN_BAR_COUNT..])
  {
    var palette := FanPalette(seatLevel);
    for i := 0 to FAN_BAR_COUNT
      invariant forall j :: 0 <= j < i ==> bars[j] == FanBarColors(activeCount, seatLevel)[j]
      invariant bars[FAN_BAR_COUNT..] == old(bars[FAN_BAR_COUNT..])
    {
      bars[i] := if i < activeCount then palette[i] else Grey300;
    }
  }

  /** set_seat_bars_color_and_active on a list of at least three bars. */
  method SetSeatBars(bars: array<Color>, level: int)
    requires bars.Length >= SEAT_BAR_COUNT
    modifies bars
    ensures bars[..SEAT_BAR_COUNT] == SeatBarColors(level)
    ensures bars[SEAT_BAR_COUNT..] == old(bars[SEAT_BAR_COUNT..])
  {
    for i := 0 to SEAT_BAR_COUNT
      invariant forall j :: 0 <= j < i ==> bars[j] == SeatBarColors(level)[j]
      invariant bars[SEAT_BAR_COUNT..] == old(bars[SEAT_BAR_COUNT..])
    {
      bars[i] := if i < level then SEAT_ORANGE_PALETTE[i] else Grey300;
    }
  }

  /** The four seat panels: ten fan bars and three seat bars each, plus the
      values last shown. */
  class Dashboard {
    const fanBars: seq<array<Color>>
    const seatBars: seq<array<Color>>
    var fanValue: Levels
    var seatValue: Levels

    ghost predicate Valid()
    {
      && |fanBars| == 4 && |seatBars| == 4
      && (forall i :: 0 <= i < 4 ==> fanBars[i].Length == FAN_BAR_COUNT && seatBars[i].Length == SEAT_BAR_COUNT)
      && (forall i, j :: 0 <= i < j < 4 ==> fanBars[i] != fanBars[j] && seatBars[i] != seatBars[j])
      && (forall i, j :: 0 <= i < 4 && 0 <= j < 4 ==> fanBars[i] != seatBars[j])
    }

    constructor ()
      ensures Valid()
      ensures forall p: Position :: p in fanValue && p in seatValue && fanValue[p] == 0 && seatValue[p] == 0
      ensures forall i, b :: 0 <= i < 4 && 0 <= b < FAN_BAR_COUNT ==> fanBars[i][b] == Grey300
      ensures forall i, b :: 0 <= i < 4 && 0 <= b < SEAT_BAR_COUNT ==> seatBars[i][b] == Grey300
    {
      var f0 := new Color[FAN_BAR_COUNT](_ => Grey300);
      var f1 := new Color[FAN_BAR_COUNT](_ => Grey300);
      var f2 := new Color[FAN_BAR_COUNT](_ => Grey300);
      var f3 := new Color[FAN_BAR_COUNT](_ => Grey300);
      var s0 := new Color[SEAT_BAR_COUNT](_ => Grey300);
      var s1 := new Color[SEAT_BAR_COUNT](_ => Grey300);
      var s2 := new Color[SEAT_BAR_COUNT](_ => Grey300);
      var s3 := new Color[SEAT_BAR_COUNT](_ => Grey300);
      fanBars := [f0, f1, f2, f3];
      seatBars := [s0, s1, s2, s3];
      fanValue := map[FL := 0, FR := 0, RL := 0, RR := 0];
      seatValue := map[FL := 0, FR := 0, RL := 0, RR := 0];
      new;
      forall p: Position
        ensures p in fanValue && p in seatValue && fanValue[p] == 0 && seatValue[p] == 0
      {
        PositionCases(p);
      }
    }

    /** off_all_bars: every fan and seat bar of every seat back to grey. */
    method OffAllBars()
      requires Valid()
      modifies fanBars, seatBars
      ensures forall i, b :: 0 <= i < 4 && 0 <= b < FAN_BAR_COUNT ==> fanBars[i][b] == Grey300
      ensures forall i, b :: 0 <= i < 4 && 0 <= b < SEAT_BAR_COUNT ==> seatBars[i][b] == Grey300
    {
      for s := 0 to 4
        invariant forall i, b :: 0 <= i < s && 0 <= b < FAN_BAR_COUNT ==> fanBars[i][b] == Grey300
        invariant forall i, b :: 0 <= i < s && 0 <= b < SEAT_BAR_COUNT ==> seatBars[i][b] == Grey300
      {
        var fan := fanBars[s];
        for b := 0 to FAN_BAR_COUNT
          invariant forall i, c :: 0 <= i < s && 0 <= c < FAN_BAR_COUNT ==> fanBars[i][c] == Grey300
          invariant forall i, c :: 0 <= i < s && 0 <= c < SEAT_BAR_COUNT ==> seatBars[i][c] == Grey300
          invariant forall c :: 0 <= c < b ==> fan[c] == Grey300
        {
          fan[b] := Grey300;
        }
        var seat := seatBars[s];
        for b := 0 to SEAT_BAR_COUNT
          invariant forall i, c :: 0 <= i <= s && 0 <= c < FAN_BAR_COUNT ==> fanBars[i][c] == Grey300
          invariant forall i, c :: 0 <= i < s && 0 <= c < SEAT_BAR_COUNT ==> seatBars[i][c] == Grey300
          invariant forall c :: 0 <= c < b ==> seat[c] == Grey300
        {
          seat[b] := Grey300;
        }
      }
    }

    /** The "update" message handler: for each seat, remember and show the
        published fan and seat values. */
    method ShowUpdate(fan: Levels, seat: Levels)
      requires Valid() && Complete(fan) && Complete(seat)
      modifies this, fanBars, seatBars
      ensures Valid()
      ensures forall p: Position :: p in fanValue && p in seatValue && fanValue[p] == fan[p] && seatValue[p] == seat[p]
      ensures forall i :: 0 <= i < 4 ==>
        && fanBars[i][..] == FanBarColors(fan[Positions[i]], seat[Positions[i]])
        && seatBars[i][..] == SeatBarColors(seat[Positions[i]])
    {
      for i := 0 to 4
        invariant Valid()
        invariant forall j :: 0 <= j < i ==> Positions[j] in fanValue && Positions[j] in seatValue
        invariant forall j :: 0 <= j < i ==> fanValue[Positions[j]] == fan[Positions[j]] && seatValue[Positions[j]] == seat[Positions[j]]
        invariant forall j :: 0 <= j < i ==>
          && fanBars[j][..] == FanBarColors(fan[Positions[j]], seat[Positions[j]])
          && seatBars[j][..] == SeatBarColors(seat[Positions[j]])
      {
        var name := Positions[i];
        var fv := fan[name];
        var sv := seat[name];
        fanValue := fanValue[name := fv];
        seatValue := seatValue[name := sv];
        SetFanBars(fanBars[i], fv, sv);
        SetSeatBars(seatBars[i], sv);
      }
      forall p: Position
        ensures p in fanValue && p in seatValue && fanValue[p] == fan[p] && seatValue[p] == seat[p]
      {
        PositionCases(p);
      }
    }
  }
}
