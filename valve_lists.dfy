/**
 * The player list and the rule list (the parsing halves of
 * `get_server_players` and `get_server_rules`). Each list is a count followed
 * by that many entries; the specification functions read the first `n`
 * entries, recursing from the back so that each loop iteration of the
 * imperative readers adds exactly one step.
 */
module ValveLists {
  import opened Base
  import opened Errors
  import opened Bufferer
  import opened ValveTypes

  // ---------------------------------------------------------------------------
  // Counted lists

  lemma LastSplit<T>(xs: seq<T>)
    requires xs != []
    ensures xs[..|xs| - 1] + [xs[|xs| - 1]] == xs
    ensures forall i :: 0 <= i < |xs| - 1 ==> xs[..|xs| - 1][i] == xs[i]
  {
  }

  /**
   * The first `n` entries read one after the other by `entry`; the first
   * failing entry fails the whole list.
   */
  function Entries<T>(entry: seq<byte> -> GDResult<Read<T>>, s: seq<byte>, n: nat): (r: GDResult<Read<seq<T>>>)
    ensures r.Ok? ==> |r.value.value| == n
  {
    if n == 0 then Ok(Read([], s))
    else
      var prev := Entries(entry, s, n - 1);
      if prev.Err? then Err(prev.error)
      else
        var x := entry(prev.value.rest);
        if x.Err? then Err(x.error)
        else Ok(Read(prev.value.value + [x.value.value], x.value.rest))
  }

  /** One more entry after `i` good ones. */
  lemma EntriesStep<T>(entry: seq<byte> -> GDResult<Read<T>>, s: seq<byte>, i: nat, xs: seq<T>, rest: seq<byte>)
    requires Entries(entry, s, i) == Ok(Read(xs, rest))
    ensures entry(rest).Err? ==> Entries(entry, s, i + 1) == Err(entry(rest).error)
    ensures entry(rest).Ok? ==>
      Entries(entry, s, i + 1) == Ok(Read(xs + [entry(rest).value.value], entry(rest).value.rest))
  {
  }

  /** Once an entry fails, reading more entries fails the same way: a list is all or nothing. */
  lemma {:induction false} EntriesFailurePersists<T>(entry: seq<byte> -> GDResult<Read<T>>, s: seq<byte>, i: nat, n: nat)
    requires i <= n && Entries(entry, s, i).Err?
    ensures Entries(entry, s, n) == Entries(entry, s, i)
    decreases n
  {
    if i < n {
      EntriesFailurePersists(entry, s, i, n - 1);
    }
  }

  /** When every entry that reads at all satisfies `ok`, so does every element of the list. */
  lemma {:induction false} EntriesAll<T>(entry: seq<byte> -> GDResult<Read<T>>, ok: T -> bool, s: seq<byte>, n: nat)
    requires forall x :: entry(x).Ok? ==> ok(entry(x).value.value)
    requires Entries(entry, s, n).Ok?
    ensures forall i :: 0 <= i < n ==> ok(Entries(entry, s, n).value.value[i])
  {
    if n > 0 {
      EntriesAll(entry, ok, s, n - 1);
    }
  }

  /** The entries `enc` writes for `xs`, one after the other. */
  function EncodeEntries<T>(enc: T -> seq<byte>, xs: seq<T>): seq<byte> {
    if xs == [] then [] else EncodeEntries(enc, xs[..|xs| - 1]) + enc(xs[|xs| - 1])
  }

  /** One more entry after a list that already reads back. */
  lemma EntriesRoundTripStep<T>(entry: seq<byte> -> GDResult<Read<T>>, enc: T -> seq<byte>,
                                init: seq<T>, last: T, t: seq<byte>)
    requires entry(enc(last) + t) == Ok(Read(last, t))
    requires Entries(entry, EncodeEntries(enc, init) + (enc(last) + t), |init|) == Ok(Read(init, enc(last) + t))
    ensures Entries(entry, EncodeEntries(enc, init + [last]) + t, |init| + 1) == Ok(Read(init + [last], t))
  {
    var xs := init + [last];
    assert xs[..|xs| - 1] == init;
    assert EncodeEntries(enc, xs) + t == EncodeEntries(enc, init) + (enc(last) + t);
    EntriesStep(entry, EncodeEntries(enc, xs) + t, |init|, init, enc(last) + t);
  }

  /** When `entry` reads back every entry `enc` writes for a `wire` value, it reads back the whole list. */
  lemma {:induction false} EntriesRoundTrip<T>(entry: seq<byte> -> GDResult<Read<T>>, enc: T -> seq<byte>,
                                               wire: T -> bool, xs: seq<T>, t: seq<byte>)
    requires forall x, u :: wire(x) ==> entry(enc(x) + u) == Ok(Read(x, u))
    requires forall i :: 0 <= i < |xs| ==> wire(xs[i])
    ensures Entries(entry, EncodeEntries(enc, xs) + t, |xs|) == Ok(Read(xs, t))
    decreases |xs|
  {
    if xs != [] {
      var init, last := xs[..|xs| - 1], xs[|xs| - 1];
      LastSplit(xs);
      EntriesRoundTrip(entry, enc, wire, init, enc(last) + t);
      EntriesRoundTripStep(entry, enc, init, last, t);
    } else {
      assert EncodeEntries(enc, xs) + t == t;
    }
  }

  // ---------------------------------------------------------------------------
  // Players

  /** The common part of an entry: an index byte that is skipped, the name, the score and the duration. */
  function PlayerHead(s: seq<byte>): GDResult<Read<(seq<byte>, u32, u32)>> {
    var name :- Utf8String(Skip1(s));
    var score :- U32(name.rest);
    var duration :- U32(score.rest);
    Ok(Read((name.value, score.value, duration.value), duration.rest))
  }

  /** Deaths and money, which only The Ship sends. */
  function PlayerShip(app: App, s: seq<byte>): (r: GDResult<Read<(Option<u32>, Option<u32>)>>)
    ensures r.Ok? ==> (r.value.value.0.Some? <==> app == TS) && (r.value.value.1.Some? <==> app == TS)
  {
    var deaths :- Opt(app == TS, U32(s), s);
    var money :- Opt(app == TS, U32(deaths.rest), deaths.rest);
    Ok(Read((deaths.value, money.value), money.rest))
  }

  /** One entry: the common part, then for The Ship deaths and money. */
  function PlayerEntry(app: App, s: seq<byte>): (r: GDResult<Read<ServerPlayer>>)
    ensures r.Ok? ==> ShipShaped(app, r.value.value)
  {
    var head :- PlayerHead(s);
    var ship :- PlayerShip(app, head.rest);
    Ok(Read(ServerPlayer(head.value.0, head.value.1, head.value.2, ship.value.0, ship.value.1), ship.rest))
  }

  function PlayerReader(app: App): seq<byte> -> GDResult<Read<ServerPlayer>> {
    s => PlayerEntry(app, s)
  }

  /** The Ship's extra fields are there exactly when the game is The Ship. */
  predicate ShipShaped(app: App, p: ServerPlayer) {
    (p.deaths.Some? <==> app == TS) && (p.money.Some? <==> app == TS)
  }

  lemma PlayerReaderShaped(app: App)
    ensures forall s :: PlayerReader(app)(s).Ok? ==> ShipShaped(app, PlayerReader(app)(s).value.value)
  {
    forall s | PlayerReader(app)(s).Ok?
      ensures ShipShaped(app, PlayerReader(app)(s).value.value)
    {
      assert PlayerReader(app)(s) == PlayerEntry(app, s);
    }
  }

  /** Every player read is shaped for the game. */
  lemma {:induction false} PlayersShape(app: App, s: seq<byte>, n: nat)
    requires Entries(PlayerReader(app), s, n).Ok?
    ensures forall i :: 0 <= i < n ==> ShipShaped(app, Entries(PlayerReader(app), s, n).value.value[i])
  {
    PlayerReaderShaped(app);
    EntriesAll(PlayerReader(app), p => ShipShaped(app, p), s, n);
  }

  /** A count byte and exactly that many entries; The Ship's extra fields exactly for The Ship. */
  function DecodePlayers(app: App, data: seq<byte>): (r: GDResult<seq<ServerPlayer>>)
    ensures r.Ok? ==> |data| >= 1 && |r.value| == data[0]
    ensures r.Ok? ==> forall i :: 0 <= i < |r.value| ==> ShipShaped(app, r.value[i])
    ensures data == [] ==> r == Err(UNDERFLOW)
  {
    if |data| < 1 then Err(UNDERFLOW)
    else
      var players := Entries(PlayerReader(app), data[1..], data[0]);
      if players.Err? then Err(players.error)
      else
        PlayersShape(app, data[1..], data[0]);
        Ok(players.value.value)
  }

  /** A player the list can carry for `app`. */
  predicate WirePlayer(app: App, p: ServerPlayer) {
    WireString(p.name) && ShipShaped(app, p)
  }

  function OptLE32(x: Option<u32>): seq<byte> { if x.Some? then LE32(x.value) else [] }

  /** One entry, with index byte 0 (the reader skips it). */
  function EncodePlayer(p: ServerPlayer): seq<byte> {
    [0] + (CString(p.name) + (LE32(p.score) + (LE32(p.durationBits) + (OptLE32(p.deaths) + OptLE32(p.money)))))
  }

  function EncodePlayers(ps: seq<ServerPlayer>): seq<byte>
    requires |ps| < 0x100
  {
    [|ps|] + EncodeEntries(EncodePlayer, ps)
  }

  lemma OptU32RoundTrip(x: Option<u32>, t: seq<byte>)
    ensures Opt(x.Some?, U32(OptLE32(x) + t), OptLE32(x) + t) == Ok(Read(x, t))
  {
    if x.Some? { U32RoundTrip(x.value, t); } else { assert OptLE32(x) + t == t; }
  }

  lemma PlayerHeadRoundTrip(p: ServerPlayer, t: seq<byte>)
    requires WireString(p.name)
    ensures PlayerHead([0] + (CString(p.name) + (LE32(p.score) + (LE32(p.durationBits) + t))))
      == Ok(Read((p.name, p.score, p.durationBits), t))
  {
    var t2 := LE32(p.durationBits) + t;
    var t1 := LE32(p.score) + t2;
    var s := [0] + (CString(p.name) + t1);
    assert Skip1(s) == CString(p.name) + t1;
    Utf8StringRoundTrip(p.name, t1);
    U32RoundTrip(p.score, t2);
    U32RoundTrip(p.durationBits, t);
  }

  lemma PlayerShipRoundTrip(app: App, p: ServerPlayer, t: seq<byte>)
    requires ShipShaped(app, p)
    ensures PlayerShip(app, OptLE32(p.deaths) + (OptLE32(p.money) + t)) == Ok(Read((p.deaths, p.money), t))
  {
    OptU32RoundTrip(p.deaths, OptLE32(p.money) + t);
    OptU32RoundTrip(p.money, t);
  }

  lemma PlayerRoundTrip(app: App, p: ServerPlayer, t: seq<byte>)
    requires WirePlayer(app, p)
    ensures PlayerEntry(app, EncodePlayer(p) + t) == Ok(Read(p, t))
  {
    var u := OptLE32(p.deaths) + (OptLE32(p.money) + t);
    assert EncodePlayer(p) + t == [0] + (CString(p.name) + (LE32(p.score) + (LE32(p.durationBits) + u)));
    PlayerHeadRoundTrip(p, u);
    PlayerShipRoundTrip(app, p, t);
  }

  lemma PlayerReaderRoundTrip(app: App)
    ensures forall p, t :: WirePlayer(app, p) ==> PlayerReader(app)(EncodePlayer(p) + t) == Ok(Read(p, t))
  {
    forall p, t | WirePlayer(app, p)
      ensures PlayerReader(app)(EncodePlayer(p) + t) == Ok(Read(p, t))
    {
      PlayerRoundTrip(app, p, t);
    }
  }

  /** Decoding what the encoder writes gives the list back. */
  lemma PlayersRoundTrip(app: App, ps: seq<ServerPlayer>)
    requires |ps| < 0x100 && forall i :: 0 <= i < |ps| ==> WirePlayer(app, ps[i])
    ensures DecodePlayers(app, EncodePlayers(ps)) == Ok(ps)
  {
    PlayerReaderRoundTrip(app);
    EntriesRoundTrip(PlayerReader(app), EncodePlayer, p => WirePlayer(app, p), ps, []);
    assert EncodeEntries(EncodePlayer, ps) + [] == EncodePlayers(ps)[1..];
  }

  method ReadPlayerHead(buffer: Cursor) returns (r: GDResult<(seq<byte>, u32, u32)>)
    modifies buffer
    ensures r == ValueOf(PlayerHead(old(buffer.Rest())))
    ensures r.Ok? ==> buffer.Rest() == PlayerHead(old(buffer.Rest())).value.rest
  {
    buffer.MoveAhead(1);
    var name :- buffer.GetStringUtf8();
    var score :- buffer.GetU32();
    var duration :- buffer.GetF32Bits();
    r := Ok((name, score, duration));
  }

  method ReadPlayerShip(app: App, buffer: Cursor) returns (r: GDResult<(Option<u32>, Option<u32>)>)
    modifies buffer
    ensures r == ValueOf(PlayerShip(app, old(buffer.Rest())))
    ensures r.Ok? ==> buffer.Rest() == PlayerShip(app, old(buffer.Rest())).value.rest
  {
    var deaths := None;
    if app == TS {
      var d :- buffer.GetU32();
      deaths := Some(d);
    }
    var money := None;
    if app == TS {
      var m :- buffer.GetU32();
      money := Some(m);
    }
    r := Ok((deaths, money));
  }

  method ReadPlayer(app: App, buffer: Cursor) returns (r: GDResult<ServerPlayer>)
    modifies buffer
    ensures r == ValueOf(PlayerEntry(app, old(buffer.Rest())))
    ensures r.Ok? ==> buffer.Rest() == PlayerEntry(app, old(buffer.Rest())).value.rest
  {
    var head :- ReadPlayerHead(buffer);
    var ship :- ReadPlayerShip(app, buffer);
    r := Ok(ServerPlayer(head.0, head.1, head.2, ship.0, ship.1));
  }

  /** Reads `count` players one after the other. */
  method ReadPlayers(app: App, buffer: Cursor, count: nat) returns (r: GDResult<seq<ServerPlayer>>)
    modifies buffer
    ensures r == ValueOf(Entries(PlayerReader(app), old(buffer.Rest()), count))
  {
    ghost var start := buffer.Rest();
    var players: seq<ServerPlayer> := [];
    var i := 0;
    while i < count
      invariant 0 <= i <= count
      invariant Entries(PlayerReader(app), start, i) == Ok(Read(players, buffer.Rest()))
    {
      ghost var before := buffer.Rest();
      var p := ReadPlayer(app, buffer);
      assert PlayerReader(app)(before) == PlayerEntry(app, before);
      EntriesStep(PlayerReader(app), start, i, players, before);
      if p.Err? {
        EntriesFailurePersists(PlayerReader(app), start, i + 1, count);
        return Err(p.error);
      }
      players := players + [p.value];
      i := i + 1;
    }
    r := Ok(players);
  }

  /** The parsing half of `get_server_players`, on a fresh cursor over the reply payload. */
  method ParsePlayers(app: App, data: seq<byte>) returns (r: GDResult<seq<ServerPlayer>>)
    ensures r == DecodePlayers(app, data)
  {
    var buffer := new Cursor(data);
    var count :- buffer.GetU8();
    r := ReadPlayers(app, buffer, count);
  }

  // ---------------------------------------------------------------------------
  // Rules

  function RuleEntry(s: seq<byte>): GDResult<Read<ServerRule>> {
    var name :- Utf8String(s);
    var value :- Utf8String(name.rest);
    Ok(Read(ServerRule(name.value, value.value), value.rest))
  }

  /** A 16-bit count and exactly that many (name, value) pairs; a successful parse is always `Some`. */
  function DecodeRules(data: seq<byte>): (r: GDResult<Option<seq<ServerRule>>>)
    ensures r.Ok? ==> |data| >= 2 && r.value.Some? && |r.value.value| == data[0] as int + 256 * data[1] as int
    ensures |data| < 2 ==> r == Err(UNDERFLOW)
  {
    if |data| < 2 then Err(UNDERFLOW)
    else
      LeValue2(data[..2]);
      var rules := Entries(RuleEntry, data[2..], LeValue(data[..2]));
      if rules.Err? then Err(rules.error)
      else Ok(Some(rules.value.value))
  }

  predicate WireRule(rule: ServerRule) {
    WireString(rule.name) && WireString(rule.value)
  }

  function EncodeRule(rule: ServerRule): seq<byte> {
    CString(rule.name) + CString(rule.value)
  }

  function EncodeRules(rules: seq<ServerRule>): seq<byte>
    requires |rules| < 0x1_0000
  {
    LE16(|rules|) + EncodeEntries(EncodeRule, rules)
  }

  lemma RuleRoundTrip(rule: ServerRule, t: seq<byte>)
    requires WireRule(rule)
    ensures RuleEntry(EncodeRule(rule) + t) == Ok(Read(rule, t))
  {
    var t1 := CString(rule.value) + t;
    assert EncodeRule(rule) + t == CString(rule.name) + t1;
    Utf8StringRoundTrip(rule.name, t1);
    Utf8StringRoundTrip(rule.value, t);
  }

  lemma RuleEntryRoundTrip()
    ensures forall rule, t :: WireRule(rule) ==> RuleEntry(EncodeRule(rule) + t) == Ok(Read(rule, t))
  {
    forall rule, t | WireRule(rule)
      ensures RuleEntry(EncodeRule(rule) + t) == Ok(Read(rule, t))
    {
      RuleRoundTrip(rule, t);
    }
  }

  /** Decoding what the encoder writes gives the rules back, as `Some`. */
  lemma RulesRoundTrip(rules: seq<ServerRule>)
    requires |rules| < 0x1_0000 && forall i :: 0 <= i < |rules| ==> WireRule(rules[i])
    ensures DecodeRules(EncodeRules(rules)) == Ok(Some(rules))
  {
    RuleEntryRoundTrip();
    EntriesRoundTrip(RuleEntry, EncodeRule, WireRule, rules, []);
    U16RoundTrip(|rules|, EncodeEntries(EncodeRule, rules));
    assert EncodeEntries(EncodeRule, rules) + [] == EncodeEntries(EncodeRule, rules);
  }

  method ReadRule(buffer: Cursor) returns (r: GDResult<ServerRule>)
    modifies buffer
    ensures r == ValueOf(RuleEntry(old(buffer.Rest())))
    ensures r.Ok? ==> buffer.Rest() == RuleEntry(old(buffer.Rest())).value.rest
  {
    var name :- buffer.GetStringUtf8();
    var value :- buffer.GetStringUtf8();
    r := Ok(ServerRule(name, value));
  }

  /** Reads `count` rules one after the other. */
  method ReadRules(buffer: Cursor, count: nat) returns (r: GDResult<seq<ServerRule>>)
    modifies buffer
    ensures r == ValueOf(Entries(RuleEntry, old(buffer.Rest()), count))
  {
    ghost var start := buffer.Rest();
    var rules: seq<ServerRule> := [];
    var i := 0;
    while i < count
      invariant 0 <= i <= count
      invariant Entries(RuleEntry, start, i) == Ok(Read(rules, buffer.Rest()))
    {
      ghost var before := buffer.Rest();
      var rule := ReadRule(buffer);
      EntriesStep(RuleEntry, start, i, rules, before);
      if rule.Err? {
        EntriesFailurePersists(RuleEntry, start, i + 1, count);
        return Err(rule.error);
      }
      rules := rules + [rule.value];
      i := i + 1;
    }
    r := Ok(rules);
  }

  /** The parsing half of `get_server_rules`, on a fresh cursor over the reply payload. */
  method ParseRules(data: seq<byte>) returns (r: GDResult<Option<seq<ServerRule>>>)
    ensures r == DecodeRules(data)
  {
    var buffer := new Cursor(data);
    var count :- buffer.GetU16();
    var rules :- ReadRules(buffer, count);
    r := Ok(Some(rules));
  }
}
