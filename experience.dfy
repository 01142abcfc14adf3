/**
  The experience ledger of the voice-XP bot: per-guild XP tables, the levels
  derived from them, the two announcement-channel settings, the per-minute
  voice tick that accrues XP and reports level-ups, the monthly reset, and the
  progress query.
 */
module Experience {
  import opened Wrappers
  import opened Tables
  import opened Leaderboard

  type Guild = int
  type Channel = int

  /** XP needed per level. */
  const LEVEL_XP: int := 60
  /** XP earned per voice tick. */
  const XP_PER_INTERVAL: int := 1

  /** One member as the framework reports it at tick time. */
  datatype Presence = Presence(member: Member, isBot: bool, voiceChannel: Option<Channel>)

  /** One guild the bot is in, with its member list. */
  datatype GuildPresence = GuildPresence(guild: Guild, members: seq<Presence>)

  /** One visit of the tick's inner loop: a member of a guild. */
  datatype Visit = Visit(guild: Guild, who: Presence)

  datatype LevelUp = LevelUp(guild: Guild, member: Member, level: int)

  /** What the tick reads and writes: the XP and level maps, and the level-ups emitted so far. */
  datatype Books = Books(xp: map<Guild, XpTable>, levels: map<Guild, map<Member, int>>, events: seq<LevelUp>)

  datatype ProgressView = ProgressView(xp: int, level: int, target: int)

  /** A monthly announcement: the guild, where it goes (None: suppressed) and its top three. */
  datatype MonthlyReport = MonthlyReport(guild: Guild, channel: Option<Channel>, top: seq<Entry>)

  // ----- reading the nested dictionaries (a missing guild or member reads as empty / 0) -----

  function Table(xp: map<Guild, XpTable>, g: Guild): XpTable
  {
    if g in xp then xp[g] else []
  }

  function XpAt(xp: map<Guild, XpTable>, g: Guild, m: Member): int
  {
    XpOf(Table(xp, g), m)
  }

  function LevelOf(levels: map<Guild, map<Member, int>>, g: Guild, m: Member): int
  {
    if g in levels && m in levels[g] then levels[g][m] else 0
  }

  /** Every stored level is its member's XP divided by LEVEL_XP (missing values read as 0). */
  ghost predicate Consistent(xp: map<Guild, XpTable>, levels: map<Guild, map<Member, int>>)
  {
    forall g, m :: LevelOf(levels, g, m) == XpAt(xp, g, m) / LEVEL_XP
  }

  /** The ledger's invariant: levels consistent with XP, each table a proper dictionary, no level map for an unknown guild. */
  ghost predicate Sound(xp: map<Guild, XpTable>, levels: map<Guild, map<Member, int>>)
  {
    && Consistent(xp, levels)
    && (forall g :: g in xp ==> DistinctMembers(xp[g]))
    && levels.Keys <= xp.Keys
  }

  /**
    A configured channel id, or None when the guild has none; an id of 0 is
    falsy in the bot and suppresses the message as well.
   */
  function Route(channels: map<Guild, Channel>, g: Guild): (r: Option<Channel>)
    ensures r.Some? <==> g in channels && channels[g] != 0
    ensures r.Some? ==> r.value == channels[g]
  {
    if g in channels && channels[g] != 0 then Some(channels[g]) else None
  }

  /** A level-up that is sent, and the channel it goes to. */
  datatype Delivery = Delivery(event: LevelUp, channel: Channel)

  /**
    `send_level_up_message` for each level-up in order: an event is sent to its
    guild's level channel, and dropped when the guild has no truthy channel.
   */
  function Deliveries(channels: map<Guild, Channel>, es: seq<LevelUp>): (r: seq<Delivery>)
    ensures |r| <= |es|
  {
    if es == [] then []
    else
      var e := es[|es| - 1];
      Deliveries(channels, es[..|es| - 1])
        + (match Route(channels, e.guild) case Some(c) => [Delivery(e, c)] case None => [])
  }

  /** A delivery is made exactly for a level-up whose guild has a routed channel, and goes to that channel. */
  lemma {:induction false} DeliveriesExact(channels: map<Guild, Channel>, es: seq<LevelUp>)
    ensures forall d :: d in Deliveries(channels, es) <==> d.event in es && Route(channels, d.event.guild) == Some(d.channel)
  {
    if es != [] {
      var p, e := es[..|es| - 1], es[|es| - 1];
      assert es == p + [e];
      DeliveriesExact(channels, p);
    }
  }

  /** A guild without a truthy level channel receives nothing, whatever its level-ups. */
  lemma DeliveriesUnrouted(channels: map<Guild, Channel>, es: seq<LevelUp>, g: Guild)
    requires g !in channels || channels[g] == 0
    ensures forall d :: d in Deliveries(channels, es) ==> d.event.guild != g
  {
    DeliveriesExact(channels, es);
  }

  /** When every level-up's guild has a routed channel, every level-up is sent, in order. */
  lemma {:induction false} DeliveriesAllRouted(channels: map<Guild, Channel>, es: seq<LevelUp>)
    requires forall k :: 0 <= k < |es| ==> es[k].guild in channels && channels[es[k].guild] != 0
    ensures |Deliveries(channels, es)| == |es|
    ensures forall k :: 0 <= k < |es| ==> Deliveries(channels, es)[k] == Delivery(es[k], channels[es[k].guild])
  {
    if es != [] {
      var p := es[..|es| - 1];
      assert forall k :: 0 <= k < |p| ==> p[k] == es[k];
      DeliveriesAllRouted(channels, p);
    }
  }

  // ----- the voice tick -----

  /** Only a member connected to a voice channel who is not a bot earns XP. */
  predicate Earns(p: Presence)
  {
    p.voiceChannel.Some? && !p.isBot
  }

  /** Visit `v` credits member `m` of guild `g`. */
  predicate Hits(v: Visit, g: Guild, m: Member)
  {
    Earns(v.who) && v.guild == g && v.who.member == m
  }

  /** One pass of the inner loop body: credit, recompute the level, record a level-up. */
  function Credit(b: Books, v: Visit): Books
  {
    if !Earns(v.who) then b
    else
      var g, m := v.guild, v.who.member;
      var t := AddXp(Table(b.xp, g), m, XP_PER_INTERVAL);
      var oldLevel := LevelOf(b.levels, g, m);
      var newLevel := XpOf(t, m) / LEVEL_XP;
      var gl := if g in b.levels then b.levels[g] else map[];
      if newLevel > oldLevel then
        Books(b.xp[g := t], b.levels[g := gl[m := newLevel]], b.events + [LevelUp(g, m, newLevel)])
      else
        Books(b.xp[g := t], b.levels[g := gl[m := oldLevel]], b.events)
  }

  /** The visits in loop order. */
  function CreditAll(b: Books, vs: seq<Visit>): Books
  {
    if vs == [] then b else Credit(CreditAll(b, vs[..|vs| - 1]), vs[|vs| - 1])
  }

  function Visits(gp: GuildPresence): seq<Visit>
  {
    seq(|gp.members|, j requires 0 <= j < |gp.members| => Visit(gp.guild, gp.members[j]))
  }

  /** The inner-loop visits of a snapshot, guild after guild. */
  function Roll(snapshot: seq<GuildPresence>): seq<Visit>
  {
    if snapshot == [] then []
    else Roll(snapshot[..|snapshot| - 1]) + Visits(snapshot[|snapshot| - 1])
  }

  /** How many visits of `vs` credit member `m` of guild `g`. */
  function Credits(vs: seq<Visit>, g: Guild, m: Member): nat
  {
    if vs == [] then 0
    else Credits(vs[..|vs| - 1], g, m) + (if Hits(vs[|vs| - 1], g, m) then 1 else 0)
  }

  /** How many level-ups of `es` are for member `m` of guild `g`. */
  function Occurrences(es: seq<LevelUp>, g: Guild, m: Member): nat
  {
    if es == [] then 0
    else
      var e := es[|es| - 1];
      Occurrences(es[..|es| - 1], g, m) + (if e.guild == g && e.member == m then 1 else 0)
  }

  /** No guild is listed twice, and no member twice within a guild. */
  predicate DistinctSnapshot(snapshot: seq<GuildPresence>)
  {
    && (forall i, j :: 0 <= i < j < |snapshot| ==> snapshot[i].guild != snapshot[j].guild)
    && (forall i :: 0 <= i < |snapshot| ==> NoDuplicates(MemberIds(snapshot[i].members)))
  }

  function MemberIds(ps: seq<Presence>): (ids: seq<Member>)
    ensures |ids| == |ps|
    ensures forall j :: 0 <= j < |ps| ==> ids[j] == ps[j].member
  {
    seq(|ps|, j requires 0 <= j < |ps| => ps[j].member)
  }

  /** No (guild, member) pair is visited twice. */
  predicate NoRepeat(vs: seq<Visit>)
  {
    forall i, j :: 0 <= i < j < |vs| ==> vs[i].guild != vs[j].guild || vs[i].who.member != vs[j].who.member
  }

  /** The snapshot lists member `m` in guild `g` as earning this tick. */
  ghost predicate Earner(snapshot: seq<GuildPresence>, g: Guild, m: Member)
  {
    exists i, j :: 0 <= i < |snapshot| && 0 <= j < |snapshot[i].members|
      && Hits(Visit(snapshot[i].guild, snapshot[i].members[j]), g, m)
  }

  // ----- facts about one visit -----

  lemma LevelStep(x: int)
    ensures x / LEVEL_XP <= (x + XP_PER_INTERVAL) / LEVEL_XP <= x / LEVEL_XP + 1
    ensures (x + XP_PER_INTERVAL) / LEVEL_XP > x / LEVEL_XP <==> (x + XP_PER_INTERVAL) % LEVEL_XP == 0
  {
  }

  /** A visit raises the visited member's XP by XP_PER_INTERVAL when it earns, and nobody else's. */
  lemma CreditXp(b: Books, v: Visit)
    ensures forall g, m :: XpAt(Credit(b, v).xp, g, m)
                        == XpAt(b.xp, g, m) + (if Hits(v, g, m) then XP_PER_INTERVAL else 0)
  {
    AddXpCredits(Table(b.xp, v.guild), v.who.member, XP_PER_INTERVAL);
  }

  /** A visit keeps the ledger invariant. */
  lemma CreditSound(b: Books, v: Visit)
    requires Sound(b.xp, b.levels)
    ensures Sound(Credit(b, v).xp, Credit(b, v).levels)
  {
    if Earns(v.who) {
      var a := Credit(b, v);
      var g0, m0 := v.guild, v.who.member;
      CreditXp(b, v);
      LevelStep(XpAt(b.xp, g0, m0));
      AddXpDistinct(Table(b.xp, g0), m0, XP_PER_INTERVAL);
      forall g, m
        ensures LevelOf(a.levels, g, m) == XpAt(a.xp, g, m) / LEVEL_XP
      {
        if g != g0 || m != m0 {
          assert LevelOf(a.levels, g, m) == LevelOf(b.levels, g, m);
        }
      }
    }
  }

  /**
    A visit emits a level-up exactly when the visited member's level rises; it
    then rises by one and the event carries the new level. Nobody else's level moves.
   */
  lemma CreditLevels(b: Books, v: Visit)
    requires Consistent(b.xp, b.levels)
    ensures var a := Credit(b, v);
      var g0, m0 := v.guild, v.who.member;
      && (forall g, m :: (g != g0 || m != m0) ==> LevelOf(a.levels, g, m) == LevelOf(b.levels, g, m))
      && LevelOf(a.levels, g0, m0) <= LevelOf(b.levels, g0, m0) + 1
      && LevelOf(a.levels, g0, m0) >= LevelOf(b.levels, g0, m0)
      && a.events == b.events + (if LevelOf(a.levels, g0, m0) > LevelOf(b.levels, g0, m0)
                                 then [LevelUp(g0, m0, LevelOf(a.levels, g0, m0))] else [])
  {
    if Earns(v.who) {
      CreditXp(b, v);
      LevelStep(XpAt(b.xp, v.guild, v.who.member));
    }
  }

  // ----- facts about a sequence of visits -----

  /** XP after the visits is XP before plus XP_PER_INTERVAL for every crediting visit. */
  lemma {:induction false} CreditAllXp(b: Books, vs: seq<Visit>)
    ensures forall g, m :: XpAt(CreditAll(b, vs).xp, g, m)
                        == XpAt(b.xp, g, m) + XP_PER_INTERVAL * Credits(vs, g, m)
  {
    if vs != [] {
      var p := vs[..|vs| - 1];
      CreditAllXp(b, p);
      CreditXp(CreditAll(b, p), vs[|vs| - 1]);
    }
  }

  /** The visits keep the ledger invariant. */
  lemma {:induction false} CreditAllSound(b: Books, vs: seq<Visit>)
    requires Sound(b.xp, b.levels)
    ensures Sound(CreditAll(b, vs).xp, CreditAll(b, vs).levels)
  {
    if vs != [] {
      var p := vs[..|vs| - 1];
      CreditAllSound(b, p);
      CreditSound(CreditAll(b, p), vs[|vs| - 1]);
    }
  }

  lemma {:induction false} CreditsNone(vs: seq<Visit>, g: Guild, m: Member)
    requires forall i :: 0 <= i < |vs| ==> vs[i].guild != g || vs[i].who.member != m
    ensures Credits(vs, g, m) == 0
  {
    if vs != [] {
      CreditsNone(vs[..|vs| - 1], g, m);
    }
  }

  lemma {:induction false} OccurrencesAt(es: seq<LevelUp>, k: int)
    requires 0 <= k < |es|
    ensures Occurrences(es, es[k].guild, es[k].member) >= 1
  {
    if k < |es| - 1 {
      OccurrencesAt(es[..|es| - 1], k);
    }
  }

  /** The level-ups of `a` relative to the levels of `b`: one per risen level, carrying the new level. */
  ghost predicate ReportsRises(b: Books, a: Books)
  {
    && (forall g, m :: Occurrences(a.events, g, m)
                    == if LevelOf(a.levels, g, m) > LevelOf(b.levels, g, m) then 1 else 0)
    && (forall k :: 0 <= k < |a.events| ==>
          && a.events[k].level == LevelOf(a.levels, a.events[k].guild, a.events[k].member)
          && a.events[k].level == LevelOf(b.levels, a.events[k].guild, a.events[k].member) + 1)
  }

  /**
    A step that moves only the level of (g0, m0), by at most one, and emits a
    level-up exactly when that level rises, keeps ReportsRises if (g0, m0) had
    not moved since `b`.
   */
  lemma ReportsRisesStep(b: Books, a0: Books, a: Books, g0: Guild, m0: Member)
    requires ReportsRises(b, a0)
    requires LevelOf(a0.levels, g0, m0) == LevelOf(b.levels, g0, m0)
    requires forall g, m :: (g != g0 || m != m0) ==> LevelOf(a.levels, g, m) == LevelOf(a0.levels, g, m)
    requires LevelOf(a0.levels, g0, m0) <= LevelOf(a.levels, g0, m0) <= LevelOf(a0.levels, g0, m0) + 1
    requires a.events == a0.events + (if LevelOf(a.levels, g0, m0) > LevelOf(a0.levels, g0, m0)
                                      then [LevelUp(g0, m0, LevelOf(a.levels, g0, m0))] else [])
    ensures ReportsRises(b, a)
  {
    forall g, m
      ensures Occurrences(a.events, g, m)
           == if LevelOf(a.levels, g, m) > LevelOf(b.levels, g, m) then 1 else 0
    {
      if a.events != a0.events {
        assert a.events[..|a.events| - 1] == a0.events;
      }
    }
    forall k | 0 <= k < |a.events|
      ensures a.events[k].level == LevelOf(a.levels, a.events[k].guild, a.events[k].member)
      ensures a.events[k].level == LevelOf(b.levels, a.events[k].guild, a.events[k].member) + 1
    {
      if k < |a0.events| {
        assert a.events[k] == a0.events[k];
        OccurrencesAt(a0.events, k);
      }
    }
  }

  /**
    Starting from sound books and visiting each pair at most once, the
    level-ups are exactly one per member whose level rose, each carrying the
    new level, which is the old level plus one.
   */
  lemma {:induction false} CreditAllEvents(b: Books, vs: seq<Visit>)
    requires Sound(b.xp, b.levels)
    requires NoRepeat(vs)
    requires b.events == []
    ensures ReportsRises(b, CreditAll(b, vs))
  {
    if vs != [] {
      var p, x := vs[..|vs| - 1], vs[|vs| - 1];
      var a0 := CreditAll(b, p);
      assert forall i :: 0 <= i < |p| ==> p[i] == vs[i];
      CreditAllEvents(b, p);
      CreditAllSound(b, p);
      CreditAllXp(b, p);
      CreditsNone(p, x.guild, x.who.member);
      CreditLevels(a0, x);
      ReportsRisesStep(b, a0, Credit(a0, x), x.guild, x.who.member);
    }
  }

  // ----- from the snapshot to the visits -----

  /** Visit `w` is one of the snapshot's (guild, member) listings. */
  ghost predicate Listed(snapshot: seq<GuildPresence>, w: Visit)
  {
    exists i, j :: 0 <= i < |snapshot| && 0 <= j < |snapshot[i].members|
      && w == Visit(snapshot[i].guild, snapshot[i].members[j])
  }

  /** The visits are exactly the (guild, member) listings of the snapshot. */
  lemma {:induction false} RollSpec(snapshot: seq<GuildPresence>)
    ensures forall k :: 0 <= k < |Roll(snapshot)| ==> Listed(snapshot, Roll(snapshot)[k])
    ensures forall i, j :: 0 <= i < |snapshot| && 0 <= j < |snapshot[i].members| ==>
      Visit(snapshot[i].guild, snapshot[i].members[j]) in Roll(snapshot)
  {
    if snapshot != [] {
      var n := |snapshot| - 1;
      var p, last := snapshot[..n], snapshot[n];
      RollSpec(p);
      var r0, v := Roll(p), Visits(last);
      assert Roll(snapshot) == r0 + v;
      forall k | 0 <= k < |Roll(snapshot)|
        ensures Listed(snapshot, Roll(snapshot)[k])
      {
        if k < |r0| {
          assert Listed(p, r0[k]);
          var i, j :| 0 <= i < |p| && 0 <= j < |p[i].members| && r0[k] == Visit(p[i].guild, p[i].members[j]);
          assert p[i] == snapshot[i];
        } else {
          var j := k - |r0|;
          assert Roll(snapshot)[k] == Visit(snapshot[n].guild, snapshot[n].members[j]);
        }
      }
      forall i, j | 0 <= i < |snapshot| && 0 <= j < |snapshot[i].members|
        ensures Visit(snapshot[i].guild, snapshot[i].members[j]) in Roll(snapshot)
      {
        if i < n {
          assert p[i] == snapshot[i];
          assert Visit(p[i].guild, p[i].members[j]) in r0;
        } else {
          assert v[j] == Visit(snapshot[i].guild, snapshot[i].members[j]);
        }
      }
    }
  }

  /** A snapshot that lists each guild once and each member once per guild visits each pair once. */
  lemma {:induction false} RollDistinct(snapshot: seq<GuildPresence>)
    requires DistinctSnapshot(snapshot)
    ensures NoRepeat(Roll(snapshot))
  {
    if snapshot != [] {
      var n := |snapshot| - 1;
      var p, last := snapshot[..n], snapshot[n];
      assert forall i :: 0 <= i < n ==> p[i] == snapshot[i];
      RollDistinct(p);
      RollSpec(p);
      var r0, v := Roll(p), Visits(last);
      var r := Roll(snapshot);
      assert r == r0 + v;
      forall a, c | 0 <= a < c < |r|
        ensures r[a].guild != r[c].guild || r[a].who.member != r[c].who.member
      {
        if c < |r0| {
          assert r[a] == r0[a] && r[c] == r0[c];
        } else if a >= |r0| {
          assert MemberIds(last.members)[a - |r0|] != MemberIds(last.members)[c - |r0|];
        } else {
          assert Listed(p, r0[a]);
          var i, j :| 0 <= i < |p| && 0 <= j < |p[i].members| && r0[a] == Visit(p[i].guild, p[i].members[j]);
          assert r[a].guild == snapshot[i].guild;
          assert r[c].guild == snapshot[n].guild;
        }
      }
    }
  }

  /** Without repeats, a pair is credited once if some visit credits it and never otherwise. */
  lemma {:induction false} CreditsUnique(vs: seq<Visit>, g: Guild, m: Member)
    requires NoRepeat(vs)
    ensures Credits(vs, g, m) == if exists k :: 0 <= k < |vs| && Hits(vs[k], g, m) then 1 else 0
  {
    if vs != [] {
      var p, x := vs[..|vs| - 1], vs[|vs| - 1];
      assert forall i :: 0 <= i < |p| ==> p[i] == vs[i];
      if Hits(x, g, m) {
        CreditsNone(p, g, m);
      } else {
        CreditsUnique(p, g, m);
        if exists k :: 0 <= k < |vs| && Hits(vs[k], g, m) {
          var k :| 0 <= k < |vs| && Hits(vs[k], g, m);
          assert k < |p| && Hits(p[k], g, m);
        }
      }
    }
  }

  /**
    One tick over a snapshot that lists each guild once and each member once per
    guild: every earning member gains exactly XP_PER_INTERVAL, everyone else nothing.
   */
  lemma TickCredits(b: Books, snapshot: seq<GuildPresence>)
    requires DistinctSnapshot(snapshot)
    ensures forall g, m :: XpAt(CreditAll(b, Roll(snapshot)).xp, g, m)
                        == XpAt(b.xp, g, m) + (if Earner(snapshot, g, m) then XP_PER_INTERVAL else 0)
  {
    var vs := Roll(snapshot);
    RollDistinct(snapshot);
    RollSpec(snapshot);
    CreditAllXp(b, vs);
    forall g, m
      ensures Credits(vs, g, m) == if Earner(snapshot, g, m) then 1 else 0
    {
      CreditsUnique(vs, g, m);
      if Earner(snapshot, g, m) {
        var i, j :| 0 <= i < |snapshot| && 0 <= j < |snapshot[i].members|
          && Hits(Visit(snapshot[i].guild, snapshot[i].members[j]), g, m);
        var w := Visit(snapshot[i].guild, snapshot[i].members[j]);
        assert w in vs;
        var k :| 0 <= k < |vs| && vs[k] == w;
        assert Hits(vs[k], g, m);
      }
    }
  }

  /** A tick never lowers anybody's XP, whatever the snapshot. */
  lemma TickNeverLowers(b: Books, snapshot: seq<GuildPresence>)
    ensures forall g, m :: XpAt(CreditAll(b, Roll(snapshot)).xp, g, m) >= XpAt(b.xp, g, m)
  {
    CreditAllXp(b, Roll(snapshot));
  }

  /**
    One tick from sound books over a snapshot that lists each guild once and each
    member once per guild: a member's level rises exactly when the member earns
    and the new XP is a multiple of LEVEL_XP.
   */
  lemma TickRises(b: Books, snapshot: seq<GuildPresence>)
    requires Sound(b.xp, b.levels)
    requires DistinctSnapshot(snapshot)
    ensures var a := CreditAll(b, Roll(snapshot));
      forall g, m :: LevelOf(a.levels, g, m) > LevelOf(b.levels, g, m)
                 <==> Earner(snapshot, g, m) && (XpAt(b.xp, g, m) + XP_PER_INTERVAL) % LEVEL_XP == 0
  {
    var a := CreditAll(b, Roll(snapshot));
    CreditAllSound(b, Roll(snapshot));
    TickCredits(b, snapshot);
    forall g, m
      ensures LevelOf(a.levels, g, m) > LevelOf(b.levels, g, m)
          <==> Earner(snapshot, g, m) && (XpAt(b.xp, g, m) + XP_PER_INTERVAL) % LEVEL_XP == 0
    {
      var x := XpAt(b.xp, g, m);
      LevelStep(x);
      assert LevelOf(b.levels, g, m) == x / LEVEL_XP;
      assert LevelOf(a.levels, g, m) == XpAt(a.xp, g, m) / LEVEL_XP;
    }
  }

  /**
    One tick from sound books over a snapshot that lists each guild once and
    each member once per guild: each member whose level rose gets one level-up
    carrying the new level, the old one plus one, and nobody else gets any.
   */
  lemma TickLevelUps(b: Books, snapshot: seq<GuildPresence>)
    requires Sound(b.xp, b.levels)
    requires DistinctSnapshot(snapshot)
    requires b.events == []
    ensures ReportsRises(b, CreditAll(b, Roll(snapshot)))
  {
    RollDistinct(snapshot);
    CreditAllEvents(b, Roll(snapshot));
  }

  /** A member on 59 XP who sits in voice for one tick reaches 60 XP and level 1, announced once. */
  lemma TickExample()
    ensures var b := Books(map[7 := [Entry(5, 59)]], map[7 := map[5 := 0]], []);
      var snapshot := [GuildPresence(7, [Presence(5, false, Some(9))])];
      var a := CreditAll(b, Roll(snapshot));
      XpAt(a.xp, 7, 5) == 60 && LevelOf(a.levels, 7, 5) == 1 && a.events == [LevelUp(7, 5, 1)]
  {
    var b := Books(map[7 := [Entry(5, 59)]], map[7 := map[5 := 0]], []);
    var v := Visit(7, Presence(5, false, Some(9)));
    var snapshot := [GuildPresence(7, [v.who])];
    assert snapshot[..0] == [];
    assert Visits(snapshot[0]) == [v];
    assert Roll(snapshot) == [v];
    assert [v][..0] == [];
    assert CreditAll(b, [v]) == Credit(b, v);
    assert AddXp([Entry(5, 59)], 5, XP_PER_INTERVAL) == [Entry(5, 60)];
    assert XpOf([Entry(5, 60)], 5) == 60;
  }

  // ----- the monthly reset clock -----

  /** The reset minute: 00:00 UTC on the first day of a month. */
  predicate IsMonthBoundary(day: int, hour: int, minute: int)
  {
    day == 1 && hour == 0 && minute == 0
  }

  /** A reading of the UTC clock's day of month, hour and minute. */
  predicate ValidClock(day: int, hour: int, minute: int)
  {
    1 <= day <= 31 && 0 <= hour < 24 && 0 <= minute < 60
  }

  /** Minutes since the start of the month. */
  function MinuteOfMonth(day: int, hour: int, minute: int): int
  {
    ((day - 1) * 24 + hour) * 60 + minute
  }

  /** The boundary holds exactly on the month's first minute, and no other reading of the clock is that minute. */
  lemma BoundaryIsFirstMinute(day: int, hour: int, minute: int)
    requires ValidClock(day, hour, minute)
    ensures IsMonthBoundary(day, hour, minute) <==> MinuteOfMonth(day, hour, minute) == 0
  {
  }

  /** Reading a pair the books do not hold gives 0 XP and level 0. */
  lemma AbsentReadsZero(xp: map<Guild, XpTable>, levels: map<Guild, map<Member, int>>, g: Guild, m: Member)
    requires Consistent(xp, levels)
    requires g !in xp || m !in Members(xp[g])
    ensures XpAt(xp, g, m) == 0 && LevelOf(levels, g, m) == 0
  {
    if g in xp {
      XpOfAbsent(xp[g], m);
    }
  }

  /** A non-empty set of guilds has a guild in it to pick. */
  lemma NonEmptyHasKey(s: set<Guild>)
    requires s != {}
    ensures exists g :: g in s
  {
    if forall g :: g !in s {
      assert false;
    }
  }

  // ----- the bot's state -----

  class Ledger {
    var xp: map<Guild, XpTable>
    var levels: map<Guild, map<Member, int>>
    var levelChannels: map<Guild, Channel>
    var monthlyChannels: map<Guild, Channel>

    ghost predicate Valid()
      reads this
    {
      Sound(xp, levels)
    }

    /** All four dictionaries start empty. */
    constructor ()
      ensures Valid()
      ensures xp == map[] && levels == map[] && levelChannels == map[] && monthlyChannels == map[]
    {
      xp, levels := map[], map[];
      levelChannels, monthlyChannels := map[], map[];
    }

    /**
      `voice_xp_loop`: one tick over every guild's members, returning the
      level-ups in loop order and the messages sent for them.
     */
    method Tick(snapshot: seq<GuildPresence>) returns (events: seq<LevelUp>, sent: seq<Delivery>)
      requires Valid()
      modifies this
      ensures Valid()
      ensures var a := CreditAll(Books(old(xp), old(levels), []), Roll(snapshot));
        xp == a.xp && levels == a.levels && events == a.events
      ensures sent == Deliveries(levelChannels, events)
      ensures levelChannels == old(levelChannels) && monthlyChannels == old(monthlyChannels)
    {
      ghost var start := Books(xp, levels, []);
      events := [];
      for i := 0 to |snapshot|
        invariant Books(xp, levels, events) == CreditAll(start, Roll(snapshot[..i]))
        invariant levelChannels == old(levelChannels) && monthlyChannels == old(monthlyChannels)
      {
        events := AccrueGuild(snapshot[i], events, start, Roll(snapshot[..i]));
        assert snapshot[..i + 1][..i] == snapshot[..i];
      }
      assert snapshot[..|snapshot|] == snapshot;
      CreditAllSound(start, Roll(snapshot));
      // The loop never writes the level channels, so routing each event as it is
      // raised is the same as routing the finished list.
      sent := Deliveries(levelChannels, events);
    }

    /** The tick's inner loop over the members of one guild, continuing the fold from `done`. */
    method AccrueGuild(gp: GuildPresence, events: seq<LevelUp>, ghost start: Books, ghost done: seq<Visit>)
      returns (events': seq<LevelUp>)
      requires Books(xp, levels, events) == CreditAll(start, done)
      modifies this
      ensures Books(xp, levels, events') == CreditAll(start, done + Visits(gp))
      ensures levelChannels == old(levelChannels) && monthlyChannels == old(monthlyChannels)
    {
      ghost var here := Visits(gp);
      events' := events;
      assert done + here[..0] == done;
      for j := 0 to |gp.members|
        invariant Books(xp, levels, events') == CreditAll(start, done + here[..j])
        invariant levelChannels == old(levelChannels) && monthlyChannels == old(monthlyChannels)
      {
        events' := Accrue(gp.guild, gp.members[j], events');
        assert (done + here[..j + 1])[..|done + here[..j + 1]| - 1] == done + here[..j];
      }
      assert here[..|gp.members|] == here;
    }

    /** The body of the tick's inner loop for one member of a guild. */
    method Accrue(guild: Guild, member: Presence, events: seq<LevelUp>) returns (events': seq<LevelUp>)
      modifies this
      ensures Books(xp, levels, events') == Credit(Books(old(xp), old(levels), events), Visit(guild, member))
      ensures levelChannels == old(levelChannels) && monthlyChannels == old(monthlyChannels)
    {
      events' := events;
      if member.voiceChannel.Some? && !member.isBot {
        var table := AddXp(Table(xp, guild), member.member, XP_PER_INTERVAL);
        xp := xp[guild := table];
        var oldLevel := LevelOf(levels, guild, member.member);
        var newLevel := XpOf(table, member.member) / LEVEL_XP;
        var inGuild := if guild in levels then levels[guild] else map[];
        if newLevel > oldLevel {
          levels := levels[guild := inGuild[member.member := newLevel]];
          events' := events' + [LevelUp(guild, member.member, newLevel)];
        } else {
          levels := levels[guild := inGuild[member.member := oldLevel]];
        }
      }
    }

    /** `setuplvl`: the guild's level channel becomes `c`; nothing else changes. */
    method SetLevelChannel(g: Guild, c: Channel)
      requires Valid()
      modifies this
      ensures Valid()
      ensures levelChannels == old(levelChannels)[g := c]
      ensures monthlyChannels == old(monthlyChannels) && xp == old(xp) && levels == old(levels)
    {
      levelChannels := levelChannels[g := c];
    }

    /** `setupmonth`: the guild's monthly channel becomes `c`; nothing else changes. */
    method SetMonthlyChannel(g: Guild, c: Channel)
      requires Valid()
      modifies this
      ensures Valid()
      ensures monthlyChannels == old(monthlyChannels)[g := c]
      ensures levelChannels == old(levelChannels) && xp == old(xp) && levels == old(levels)
    {
      monthlyChannels := monthlyChannels[g := c];
    }

    /**
      `levelazer`: the member's XP and level, and the XP the next level needs,
      which is the first multiple of LEVEL_XP above the current XP.
     */
    function Progress(g: Guild, m: Member): (r: ProgressView)
      reads this
      requires Valid()
      ensures r.xp == XpAt(xp, g, m) && r.level == LevelOf(levels, g, m)
      ensures r.level == r.xp / LEVEL_XP
      ensures r.target == LEVEL_XP * (r.level + 1)
      ensures r.target % LEVEL_XP == 0 && r.xp < r.target <= r.xp + LEVEL_XP
      ensures (g !in xp || m !in Members(xp[g])) ==> r == ProgressView(0, 0, LEVEL_XP)
    {
      if g !in xp || m !in Members(xp[g]) then
        AbsentReadsZero(xp, levels, g, m);
        ProgressView(0, 0, LEVEL_XP)
      else
        var level := LevelOf(levels, g, m);
        ProgressView(XpAt(xp, g, m), level, LEVEL_XP * (level + 1))
    }

    /**
      `reset_monthly_leaderboard`: at the month boundary, one report per guild
      the bot is in, built from the XP before the reset, then every guild's XP
      and level records are emptied; the channel settings are kept.
     */
    method ResetMonthly(guilds: seq<Guild>, day: int, hour: int, minute: int) returns (reports: seq<MonthlyReport>)
      requires Valid()
      modifies this
      ensures Valid()
      ensures levelChannels == old(levelChannels) && monthlyChannels == old(monthlyChannels)
      ensures !IsMonthBoundary(day, hour, minute) ==> reports == [] && xp == old(xp) && levels == old(levels)
      ensures IsMonthBoundary(day, hour, minute) ==>
        && |reports| == |guilds|
        && (forall i :: 0 <= i < |guilds| ==>
              reports[i] == MonthlyReport(guilds[i], Route(monthlyChannels, guilds[i]), TopMembers(Table(old(xp), guilds[i]))))
        && xp.Keys == old(xp).Keys && (forall g :: g in xp ==> xp[g] == [])
        && levels.Keys == xp.Keys && (forall g :: g in levels ==> levels[g] == map[])
    {
      reports := [];
      if !IsMonthBoundary(day, hour, minute) {
        return;
      }
      for i := 0 to |guilds|
        invariant |reports| == i
        invariant forall k :: 0 <= k < i ==>
          reports[k] == MonthlyReport(guilds[k], Route(monthlyChannels, guilds[k]), TopMembers(Table(xp, guilds[k])))
      {
        var top := TopMembers(Table(xp, guilds[i]));
        reports := reports + [MonthlyReport(guilds[i], Route(monthlyChannels, guilds[i]), top)];
      }
      ClearRecords();
    }

    /** The clearing loop of the reset: every guild's XP and level records become empty. */
    method ClearRecords()
      requires Valid()
      modifies this
      ensures Valid()
      ensures xp.Keys == old(xp).Keys && (forall g :: g in xp ==> xp[g] == [])
      ensures levels.Keys == xp.Keys && (forall g :: g in levels ==> levels[g] == map[])
      ensures forall g, m :: XpAt(xp, g, m) == 0 && LevelOf(levels, g, m) == 0
      ensures levelChannels == old(levelChannels) && monthlyChannels == old(monthlyChannels)
    {
      var pending := xp.Keys;
      while pending != {}
        invariant pending <= xp.Keys && xp.Keys == old(xp).Keys
        invariant forall h :: h in xp && h !in pending ==> xp[h] == [] && h in levels && levels[h] == map[]
        invariant forall h :: h in pending ==> xp[h] == old(xp)[h]
        invariant levels.Keys == old(levels).Keys + (xp.Keys - pending)
        invariant levelChannels == old(levelChannels) && monthlyChannels == old(monthlyChannels)
        decreases pending
      {
        NonEmptyHasKey(pending);
        var g :| g in pending;
        xp := xp[g := []];
        levels := levels[g := map[]];
        pending := pending - {g};
      }
    }
  }
}
