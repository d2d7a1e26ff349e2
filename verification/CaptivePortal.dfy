/**
 Captive-portal sessions and vouchers: granting, refreshing, revoking and pruning sessions,
 and redeeming vouchers for them.
 */
module CaptivePortal {
  import opened Wrappers
  import opened Text

  const U32_MAX: nat := 0xFFFF_FFFF
  type u32 = n: nat | n <= U32_MAX

  /** Times are in seconds. */
  datatype Session = Session(id: string, clientIp: string, lastSeen: int, expires: int, voucherId: Option<string>)

  datatype Voucher = Voucher(id: string, code: string, enabled: bool, expires: Option<int>,
                             maxUses: Option<u32>, uses: u32)

  datatype Config = Config(enabled: bool, voucherMode: bool, termsRequired: bool, ttl: nat, idleTimeout: nat,
                           vouchers: seq<Voucher>)

  /** `issued` lists the voucher of every session saved so far. */
  datatype State = State(config: Option<Config>, sessions: seq<Session>, issued: seq<string>)

  datatype Error = Invalid | Forbidden | NotFound | Storage | EngineError

  // ---------------------------------------------------------------------------
  // Sessions
  // ---------------------------------------------------------------------------

  predicate Active(idleTimeout: nat, s: Session, now: int) {
    s.expires > now && (idleTimeout == 0 || s.lastSeen + idleTimeout > now)
  }

  /** The filters the handlers retain sessions by. */
  datatype Keep = NotIp(ip: string) | NotId(id: string) | ActiveAt(idleTimeout: nat, now: int)

  predicate Keeps(k: Keep, s: Session) {
    match k
    case NotIp(ip) => s.clientIp != ip
    case NotId(id) => s.id != id
    case ActiveAt(idle, now) => Active(idle, s, now)
  }

  function Filter(ss: seq<Session>, keep: Keep): seq<Session> {
    if ss == [] then []
    else
      var n := |ss| - 1;
      Filter(ss[..n], keep) + (if Keeps(keep, ss[n]) then [ss[n]] else [])
  }

  lemma {:induction false} InFilter(ss: seq<Session>, keep: Keep, s: Session)
    ensures s in Filter(ss, keep) <==> s in ss && Keeps(keep, s)
  {
    if ss != [] {
      var n := |ss| - 1;
      InFilter(ss[..n], keep, s);
      assert ss == ss[..n] + [ss[n]];
    }
  }

  /** At most one session per client address. */
  predicate OnePerIp(ss: seq<Session>) {
    forall i, j :: 0 <= i < j < |ss| ==> ss[i].clientIp != ss[j].clientIp
  }

  lemma {:induction false} FilterKeepsOnePerIp(ss: seq<Session>, keep: Keep)
    requires OnePerIp(ss)
    ensures OnePerIp(Filter(ss, keep))
  {
    if ss != [] {
      var n := |ss| - 1;
      FilterKeepsOnePerIp(ss[..n], keep);
      forall s | s in Filter(ss[..n], keep) ensures s.clientIp != ss[n].clientIp {
        InFilter(ss[..n], keep, s);
        var i :| 0 <= i < n && ss[..n][i] == s;
      }
    }
  }

  /** Replaces the address's session, if any, with a new one. */
  function Granted(ss: seq<Session>, s: Session): seq<Session> {
    Filter(ss, NotIp(s.clientIp)) + [s]
  }

  /** The sessions are kept if the shorter list could not be saved. */
  function Pruned(st: State, idleTimeout: nat, now: int, saved: bool): (r: (State, bool))
    ensures r.0.config == st.config && r.0.issued == st.issued
  {
    var kept := Filter(st.sessions, ActiveAt(idleTimeout, now));
    if |kept| == |st.sessions| then (st, true)
    else if saved then (st.(sessions := kept), true)
    else (st, false)
  }

  /** Loading the rules: when, and whether reading the files, saving the pruned sessions and
      loading the kernel work. */
  datatype Reload = Reload(now: int, filesRead: bool, pruneSaved: bool, rulesLoaded: bool)

  /** The rule loader first drops the sessions no longer active, if the portal is configured. */
  function Reloaded(st: State, l: Reload): (r: (State, Result<(), Error>))
    ensures r.0.config == st.config && r.0.issued == st.issued
  {
    if !l.filesRead then (st, Err(EngineError))
    else
      var (st', ok) :=
        if st.config.Some? then Pruned(st, st.config.value.idleTimeout, l.now, l.pruneSaved) else (st, true);
      if !ok || !l.rulesLoaded then (st', Err(EngineError)) else (st', Ok(()))
  }

  /** A new session is saved, put on record if it is on a voucher, and the rules reloaded. */
  function Admitted(st: State, s: Session, l: Reload): (State, Result<(), Error>) {
    Reloaded(st.(sessions := Granted(st.sessions, s),
                 issued := st.issued + (if s.voucherId.Some? then [s.voucherId.value] else [])), l)
  }

  function FindActive(ss: seq<Session>, ip: string, idle: nat, now: int): (p: Option<nat>)
    ensures p.Some? ==> p.value < |ss| && ss[p.value].clientIp == ip && Active(idle, ss[p.value], now)
  {
    if ss == [] then None
    else if ss[0].clientIp == ip && Active(idle, ss[0], now) then Some(0)
    else
      var rest := FindActive(ss[1..], ip, idle, now);
      if rest.Some? then Some(rest.value + 1) else None
  }

  // ---------------------------------------------------------------------------
  // Vouchers
  // ---------------------------------------------------------------------------

  function FindVoucher(vs: seq<Voucher>, code: string): (p: Option<nat>)
    ensures p.Some? ==> p.value < |vs| && Trim(vs[p.value].code) == code
  {
    if vs == [] then None
    else if Trim(vs[0].code) == code then Some(0)
    else
      var rest := FindVoucher(vs[1..], code);
      if rest.Some? then Some(rest.value + 1) else None
  }

  predicate Exhausted(v: Voucher) {
    v.maxUses.Some? && v.uses >= v.maxUses.value
  }

  /** A saturating increment. */
  function Used(v: Voucher): Voucher {
    v.(uses := if v.uses < U32_MAX then v.uses + 1 else v.uses)
  }

  /** The voucher position a code redeems, `None` outside voucher mode. */
  function Redeem(cfg: Config, code: Option<string>, now: int): (r: Result<Option<nat>, Error>)
    ensures r.Ok? && r.value.Some? ==>
              var v := r.value.value;
              v < |cfg.vouchers| && cfg.voucherMode && cfg.vouchers[v].enabled && !Exhausted(cfg.vouchers[v])
  {
    if !cfg.voucherMode then Ok(None)
    else if code.None? || Trim(code.value) == "" then Err(Invalid)
    else
      var p := FindVoucher(cfg.vouchers, Trim(code.value));
      if p.None? then Err(Forbidden)
      else
        var v := cfg.vouchers[p.value];
        if !v.enabled || (v.expires.Some? && v.expires.value <= now) || Exhausted(v) then Err(Forbidden)
        else Ok(p)
  }

  function Spent(cfg: Config, p: nat): Config
    requires p < |cfg.vouchers|
  {
    cfg.(vouchers := cfg.vouchers[p := Used(cfg.vouchers[p])])
  }

  predicate WithinLimits(vs: seq<Voucher>) {
    forall i :: 0 <= i < |vs| && vs[i].maxUses.Some? ==> vs[i].uses <= vs[i].maxUses.value
  }

  /** Redeeming adds a use exactly unless an unlimited voucher's counter is saturated, and
      never takes a limited one past its limit. */
  lemma RedeemingCountsIff(v: Voucher)
    requires !Exhausted(v)
    ensures Used(v).uses == v.uses + 1 <==> !Saturated(v)
    ensures v.maxUses.Some? ==> Used(v).uses <= v.maxUses.value
  {
  }

  // ---------------------------------------------------------------------------
  // The requests
  // ---------------------------------------------------------------------------

  /** `peer` is the address a request comes from, `None` if unspecified; `id` is the new session's
      random id; flags say whether texts parse and whether writing a file worked. */
  datatype Request =
    | UpdateConfig(config: Config, othersValid: bool, configSaved: bool, now: int, sessionsSaved: bool, load: Reload)
    | CreateSession(ip: string, textsValid: bool, ttl: Option<nat>, id: string, now: int, sessionsSaved: bool,
                    load: Reload)
    | RevokeSession(id: string, sessionsSaved: bool, load: Reload)
    | Status(peer: Option<string>, now: int, sessionsSaved: bool)
    | Authorize(client: Client, accepted: bool, code: Option<string>, id: string, now: int,
                configSaved: bool, sessionsSaved: bool, load: Reload)
    | Logout(peer: Option<string>, sessionsSaved: bool, load: Reload)
    | Reap(now: int, sessionsSaved: bool, load: Reload)

  /** What an authorisation says about its sender: `claimed` counts only without a peer address. */
  datatype Client = Client(peer: Option<string>, claimed: Option<string>, claimedValid: bool, macValid: bool)

  function ClientIp(c: Client): Result<string, Error> {
    if c.peer.Some? then Ok(c.peer.value)
    else if c.claimed.None? || Trim(c.claimed.value) == "" || !c.claimedValid then Err(Invalid)
    else Ok(Trim(c.claimed.value))
  }

  /** The checks on a submitted config that concern sessions and vouchers. */
  predicate ValidConfig(cfg: Config) {
    && cfg.ttl >= 60 && (cfg.idleTimeout == 0 || cfg.idleTimeout >= 60)
    && WithinLimits(cfg.vouchers)
    && (forall v :: v in cfg.vouchers && v.maxUses.Some? ==> v.maxUses.value > 0)
    && (forall i, j :: 0 <= i < j < |cfg.vouchers| ==> Trim(cfg.vouchers[i].code) != Trim(cfg.vouchers[j].code))
  }

  const DEFAULT_CONFIG := Config(false, false, false, 86400, 0, [])

  function Effective(st: State): Config {
    st.config.GetOr(DEFAULT_CONFIG)
  }

  /** Redeeming a code: the config with the use counted is saved, and the voucher's id returned. */
  function AfterRedeem(st: State, code: Option<string>, now: int, saved: bool): (State, Result<Option<string>, Error>) {
    var cfg := Effective(st);
    var r := Redeem(cfg, code, now);
    if r.Err? then (st, Err(r.error))
    else if r.value.None? then (st, Ok(None))
    else if !saved then (st, Err(Storage))
    else (st.(config := Some(Spent(cfg, r.value.value))), Ok(Some(cfg.vouchers[r.value.value].id)))
  }

  /** The refusals before anything is written. */
  function MayAuthorize(cfg: Config, client: Client, accepted: bool): Result<string, Error> {
    if !cfg.enabled then Err(Forbidden)
    else if cfg.termsRequired && !accepted then Err(Invalid)
    else if ClientIp(client).Ok? && !client.macValid then Err(Invalid)
    else ClientIp(client)
  }

  function AfterAuthorize(st: State, client: Client, accepted: bool, code: Option<string>, id: string, now: int,
                          configSaved: bool, sessionsSaved: bool, load: Reload): (State, Result<(), Error>) {
    var cfg := Effective(st);
    var ip := MayAuthorize(cfg, client, accepted);
    if ip.Err? then (st, Err(ip.error))
    else
      var (st1, vid) := AfterRedeem(st, code, now, configSaved);
      if vid.Err? then (st1, Err(vid.error))
      else if !sessionsSaved then (st1, Err(Storage))
      else Admitted(st1, Session(id, ip.value, now, now + cfg.ttl, vid.value), load)
  }

  function AfterUpdate(st: State, config: Config, now: int, sessionsSaved: bool, load: Reload)
    : (State, Result<(), Error>)
  {
    var (st1, ok) := Pruned(st.(config := Some(config)), config.idleTimeout, now, sessionsSaved);
    if !ok then (st1, Err(Storage)) else Reloaded(st1, load)
  }

  /** The periodic reaper reloads the rules only if it dropped a session. */
  function AfterReap(st: State, now: int, saved: bool, load: Reload): State {
    if st.config.None? || !st.config.value.enabled then st
    else
      var (st1, ok) := Pruned(st, st.config.value.idleTimeout, now, saved);
      if !ok || st1 == st then st1 else Reloaded(st1, load).0
  }

  function After(st: State, r: Request): (State, Result<(), Error>) {
    match r
    case UpdateConfig(config, othersValid, configSaved, now, sessionsSaved, load) =>
      if !othersValid || !ValidConfig(config) then (st, Err(Invalid))
      else if !configSaved then (st, Err(Storage))
      else AfterUpdate(st, config, now, sessionsSaved, load)
    case CreateSession(ip, textsValid, ttl, id, now, saved, load) =>
      var seconds := ttl.GetOr(Effective(st).ttl);
      if !textsValid || seconds < 60 then (st, Err(Invalid))
      else if !saved then (st, Err(Storage))
      else Admitted(st, Session(id, Trim(ip), now, now + seconds, None), load)
    case RevokeSession(id, saved, load) =>
      var kept := Filter(st.sessions, NotId(id));
      if |kept| == |st.sessions| then (st, Err(NotFound))
      else if !saved then (st, Err(Storage))
      else Reloaded(st.(sessions := kept), load)
    case Status(peer, now, saved) =>
      if peer.None? then (st, Err(Invalid))
      else
        var p := FindActive(st.sessions, peer.value, Effective(st).idleTimeout, now);
        if p.None? then (st, Ok(()))
        else if !saved then (st, Err(Storage))
        else (st.(sessions := st.sessions[p.value := st.sessions[p.value].(lastSeen := now)]), Ok(()))
    case Authorize(client, accepted, code, id, now, configSaved, sessionsSaved, load) =>
      AfterAuthorize(st, client, accepted, code, id, now, configSaved, sessionsSaved, load)
    case Logout(peer, saved, load) =>
      if peer.None? then (st, Err(Invalid))
      else if !saved then (st, Err(Storage))
      else Reloaded(st.(sessions := Filter(st.sessions, NotIp(peer.value))), load)
    case Reap(now, saved, load) => (AfterReap(st, now, saved, load), Ok(()))
  }

  function Exec(st: State, rs: seq<Request>): State
    decreases |rs|
  {
    if rs == [] then st else Exec(After(st, rs[0]).0, rs[1..])
  }

  // ---------------------------------------------------------------------------
  // One session per address
  // ---------------------------------------------------------------------------

  lemma GrantKeepsOnePerIp(ss: seq<Session>, s: Session)
    requires OnePerIp(ss)
    ensures OnePerIp(Granted(ss, s))
  {
    var keep := NotIp(s.clientIp);
    FilterKeepsOnePerIp(ss, keep);
    var kept := Filter(ss, keep);
    forall i | 0 <= i < |kept| ensures kept[i].clientIp != s.clientIp {
      InFilter(ss, keep, kept[i]);
    }
  }

  lemma PruneKeepsOnePerIp(st: State, idleTimeout: nat, now: int, saved: bool)
    requires OnePerIp(st.sessions)
    ensures OnePerIp(Pruned(st, idleTimeout, now, saved).0.sessions)
  {
    FilterKeepsOnePerIp(st.sessions, ActiveAt(idleTimeout, now));
  }

  lemma ReloadKeepsOnePerIp(st: State, l: Reload)
    requires OnePerIp(st.sessions)
    ensures OnePerIp(Reloaded(st, l).0.sessions)
  {
    if st.config.Some? {
      PruneKeepsOnePerIp(st, st.config.value.idleTimeout, l.now, l.pruneSaved);
    }
  }

  lemma AdmitKeepsOnePerIp(st: State, s: Session, l: Reload)
    requires OnePerIp(st.sessions)
    ensures OnePerIp(Admitted(st, s, l).0.sessions)
  {
    GrantKeepsOnePerIp(st.sessions, s);
    ReloadKeepsOnePerIp(st.(sessions := Granted(st.sessions, s),
                            issued := st.issued + (if s.voucherId.Some? then [s.voucherId.value] else [])), l);
  }

  lemma FilteredKeepsOnePerIp(st: State, keep: Keep, l: Reload)
    requires OnePerIp(st.sessions)
    ensures OnePerIp(Reloaded(st.(sessions := Filter(st.sessions, keep)), l).0.sessions)
  {
    FilterKeepsOnePerIp(st.sessions, keep);
    ReloadKeepsOnePerIp(st.(sessions := Filter(st.sessions, keep)), l);
  }

  lemma RequestKeepsOnePerIp(st: State, r: Request)
    requires OnePerIp(st.sessions)
    ensures OnePerIp(After(st, r).0.sessions)
  {
    match r
    case UpdateConfig(config, _, _, now, saved, load) =>
      var st1 := st.(config := Some(config));
      PruneKeepsOnePerIp(st1, config.idleTimeout, now, saved);
      ReloadKeepsOnePerIp(Pruned(st1, config.idleTimeout, now, saved).0, load);
    case CreateSession(ip, _, ttl, id, now, _, load) =>
      AdmitKeepsOnePerIp(st, Session(id, Trim(ip), now, now + ttl.GetOr(Effective(st).ttl), None), load);
    case RevokeSession(id, _, load) => FilteredKeepsOnePerIp(st, NotId(id), load);
    case Status(_, _, _) =>
    case Authorize(_, _, _, _, _, _, _, load) =>
      forall st': State, s: Session | OnePerIp(st'.sessions) ensures OnePerIp(Admitted(st', s, load).0.sessions) {
        AdmitKeepsOnePerIp(st', s, load);
      }
    case Logout(peer, _, load) =>
      if peer.Some? {
        FilteredKeepsOnePerIp(st, NotIp(peer.value), load);
      }
    case Reap(now, saved, load) =>
      if st.config.Some? {
        PruneKeepsOnePerIp(st, st.config.value.idleTimeout, now, saved);
        ReloadKeepsOnePerIp(Pruned(st, st.config.value.idleTimeout, now, saved).0, load);
      }
  }

  lemma {:induction false} AlwaysOnePerIp(st: State, rs: seq<Request>)
    requires OnePerIp(st.sessions)
    ensures OnePerIp(Exec(st, rs).sessions)
    decreases |rs|
  {
    if rs != [] {
      RequestKeepsOnePerIp(st, rs[0]);
      AlwaysOnePerIp(After(st, rs[0]).0, rs[1..]);
    }
  }

  // ---------------------------------------------------------------------------
  // What a request grants, keeps and takes away
  // ---------------------------------------------------------------------------

  lemma {:induction false} FilterShrinks(ss: seq<Session>, keep: Keep)
    ensures |Filter(ss, keep)| <= |ss|
    ensures |Filter(ss, keep)| == |ss| ==> Filter(ss, keep) == ss
  {
    if ss != [] {
      FilterShrinks(ss[..|ss| - 1], keep);
    }
  }

  lemma PrunedKeepsExactly(st: State, idleTimeout: nat, now: int, s: Session)
    ensures s in Pruned(st, idleTimeout, now, true).0.sessions <==> s in st.sessions && Active(idleTimeout, s, now)
    ensures Pruned(st, idleTimeout, now, true).1
  {
    FilterShrinks(st.sessions, ActiveAt(idleTimeout, now));
    InFilter(st.sessions, ActiveAt(idleTimeout, now), s);
  }

  /** Nothing goes wrong with the rule loader. */
  predicate Loads(l: Reload) {
    l.filesRead && l.pruneSaved && l.rulesLoaded
  }

  /** Loading the rules of a configured portal keeps exactly the sessions that have not expired
      and, where there is an idle timeout, were seen within it. */
  lemma ReloadKeepsExactlyTheActive(st: State, l: Reload, s: Session)
    requires st.config.Some? && Loads(l)
    ensures var idle := st.config.value.idleTimeout;
            s in Reloaded(st, l).0.sessions <==>
            s in st.sessions && l.now < s.expires && (idle > 0 ==> l.now < s.lastSeen + idle)
    ensures Reloaded(st, l).1.Ok?
  {
    PrunedKeepsExactly(st, st.config.value.idleTimeout, l.now, s);
  }

  lemma AllActiveIff(ss: seq<Session>, idleTimeout: nat, now: int)
    ensures |Filter(ss, ActiveAt(idleTimeout, now))| == |ss| <==> forall s :: s in ss ==> Active(idleTimeout, s, now)
  {
    var keep := ActiveAt(idleTimeout, now);
    FilterShrinks(ss, keep);
    AllKept(ss, keep);
    forall s | s in Filter(ss, keep) ensures Active(idleTimeout, s, now) {
      InFilter(ss, keep, s);
    }
  }

  /** The loader reports success exactly if its files can be read, the shorter list of sessions, if
      any are to be dropped, can be saved, and the kernel takes the rules; sessions that cannot be
      saved without the dropped ones stay. */
  lemma ReloadOutcome(st: State, l: Reload)
    ensures var drops := st.config.Some?
                         && exists s :: s in st.sessions && !Active(st.config.value.idleTimeout, s, l.now);
            var (st', r) := Reloaded(st, l);
            && (r.Ok? <==> l.filesRead && (drops ==> l.pruneSaved) && l.rulesLoaded)
            && (!l.filesRead || !drops || !l.pruneSaved ==> st' == st)
            && (r.Err? ==> r.error == EngineError)
  {
    if st.config.Some? {
      AllActiveIff(st.sessions, st.config.value.idleTimeout, l.now);
    }
  }

  /** A change of the sessions that cannot be saved is not made, and that is the answer. */
  lemma UnsavedChangesNothing(st: State, r: Request)
    requires match r
             case CreateSession(_, _, _, _, _, saved, _) => !saved
             case RevokeSession(_, saved, _) => !saved
             case Logout(_, saved, _) => !saved
             case Status(_, _, saved) => !saved
             case UpdateConfig(_, _, saved, _, _, _) => !saved
             case Authorize(_, _, _, _, _, configSaved, sessionsSaved, _) =>
               !configSaved && !sessionsSaved
             case Reap(_, saved, _) => !saved
    ensures After(st, r).0 == st
    ensures r.CreateSession? || r.RevokeSession? || r.UpdateConfig? || r.Authorize? || r.Logout? ==>
              After(st, r).1.Err?
  {
  }

  /** If only the sessions cannot be saved, a redeemed voucher's use is counted all the same. */
  lemma UseIsSpentWithoutASession(st: State, r: Request)
    requires r.Authorize? && r.configSaved && !r.sessionsSaved && MayEnter(Effective(st), r)
    ensures var (st', answer) := After(st, r);
            && answer == Err(Storage) && st'.sessions == st.sessions && st'.issued == st.issued
            && (!Effective(st).voucherMode ==> st' == st)
            && (Effective(st).voucherMode ==>
                  exists k: nat :: GoodVoucher(Effective(st).vouchers, Trim(r.code.value), r.now, k)
                    && st'.config == Some(Spent(Effective(st), k)))
  {
    RedeemsIff(Effective(st), r.code, r.now);
  }

  lemma FilterSnoc(ss: seq<Session>, s: Session, keep: Keep)
    ensures Filter(ss + [s], keep) == Filter(ss, keep) + (if Keeps(keep, s) then [s] else [])
  {
    assert (ss + [s])[..|ss|] == ss;
  }

  /** A session admitted and not yet over when the rules are loaded is the last of the list, and
      the only one of its address. */
  lemma AdmittedIsLast(st: State, s: Session, l: Reload)
    requires st.config.Some? ==> Active(st.config.value.idleTimeout, s, l.now)
    ensures var ss := Admitted(st, s, l).0.sessions;
            ss != [] && ss[|ss| - 1] == s && forall i :: 0 <= i < |ss| - 1 ==> ss[i].clientIp != s.clientIp
  {
    var kept := Filter(st.sessions, NotIp(s.clientIp));
    forall i | 0 <= i < |kept| ensures kept[i].clientIp != s.clientIp {
      InFilter(st.sessions, NotIp(s.clientIp), kept[i]);
    }
    if st.config.Some? {
      var keep := ActiveAt(st.config.value.idleTimeout, l.now);
      FilterSnoc(kept, s, keep);
      var rest := Filter(kept, keep);
      forall i | 0 <= i < |rest| ensures rest[i].clientIp != s.clientIp {
        InFilter(kept, keep, rest[i]);
      }
    }
  }

  /** The first voucher with the code, which is enabled, not expired and has a use left. */
  ghost predicate GoodVoucher(vs: seq<Voucher>, code: string, now: int, k: nat) {
    && k < |vs| && Trim(vs[k].code) == code && (forall j :: 0 <= j < k ==> Trim(vs[j].code) != code)
    && vs[k].enabled
    && (vs[k].expires.Some? ==> now < vs[k].expires.value)
    && (vs[k].maxUses.Some? ==> vs[k].uses < vs[k].maxUses.value)
  }

  /** What the portal asks of a client: it is on, its terms are accepted if it has any, the
      client's address is known and its MAC address, if given, is one, and in voucher mode it
      shows the code of a good voucher. */
  ghost predicate MayEnter(cfg: Config, r: Request)
    requires r.Authorize?
  {
    && cfg.enabled && (cfg.termsRequired ==> r.accepted) && r.client.macValid
    && (r.client.peer.None? ==>
          r.client.claimed.Some? && Trim(r.client.claimed.value) != "" && r.client.claimedValid)
    && (cfg.voucherMode ==>
          r.code.Some? && Trim(r.code.value) != ""
          && exists k: nat :: GoodVoucher(cfg.vouchers, Trim(r.code.value), r.now, k))
  }

  lemma {:induction false} FoundVoucherIsFirst(vs: seq<Voucher>, code: string)
    ensures var p := FindVoucher(vs, code);
            if p.Some? then forall j :: 0 <= j < p.value ==> Trim(vs[j].code) != code
            else forall j :: 0 <= j < |vs| ==> Trim(vs[j].code) != code
  {
    if vs != [] {
      FoundVoucherIsFirst(vs[1..], code);
      assert forall j :: 0 < j < |vs| ==> vs[j] == vs[1..][j - 1];
    }
  }

  lemma RedeemsIff(cfg: Config, code: Option<string>, now: int)
    ensures cfg.voucherMode ==>
              (Redeem(cfg, code, now).Ok? <==>
               code.Some? && Trim(code.value) != ""
               && exists k: nat :: GoodVoucher(cfg.vouchers, Trim(code.value), now, k))
    ensures !cfg.voucherMode ==> Redeem(cfg, code, now) == Ok(None)
    ensures Redeem(cfg, code, now).Ok? && cfg.voucherMode ==>
              Redeem(cfg, code, now).value.Some?
              && GoodVoucher(cfg.vouchers, Trim(code.value), now, Redeem(cfg, code, now).value.value)
  {
    if code.Some? {
      FoundVoucherIsFirst(cfg.vouchers, Trim(code.value));
      var p := FindVoucher(cfg.vouchers, Trim(code.value));
      if k: nat :| GoodVoucher(cfg.vouchers, Trim(code.value), now, k) {
        assert p == Some(k);
      }
      if cfg.voucherMode && Redeem(cfg, code, now).Ok? {
        assert GoodVoucher(cfg.vouchers, Trim(code.value), now, p.value);
      }
    }
  }

  /** With every save and the reload working, a client is let in exactly if it may enter. */
  lemma ClientIsLetInIff(st: State, r: Request)
    requires r.Authorize? && r.configSaved && r.sessionsSaved && Loads(r.load)
    ensures After(st, r).1.Ok? <==> MayEnter(Effective(st), r)
  {
    RedeemsIff(Effective(st), r.code, r.now);
  }

  /** Whatever fails, no client is let in that may not enter. */
  lemma OnlyWhoMayEnter(st: State, r: Request)
    requires r.Authorize? && (After(st, r).1.Ok? || After(st, r).0.issued != st.issued || st != After(st, r).0)
    ensures MayEnter(Effective(st), r)
  {
    RedeemsIff(Effective(st), r.code, r.now);
  }

  /** A session as granted at a moment for so many seconds: until when it is active. */
  ghost predicate LastsFor(s: Session, now: int, seconds: nat) {
    forall idle: nat, t: int :: t >= now ==>
      (Active(idle, s, t) <==> t < now + seconds && (idle > 0 ==> t < now + idle))
  }

  /** A client let in, the rules being loaded before its session is over, has one session: under
      the new id, for its peer address or else the one it claims, for the configured time. */
  lemma GrantedSessionLasts(st: State, r: Request)
    requires r.Authorize? && After(st, r).1.Ok?
    requires var cfg := Effective(st);
             r.load.now < r.now + cfg.ttl && (cfg.idleTimeout > 0 ==> r.load.now < r.now + cfg.idleTimeout)
    ensures var ss := After(st, r).0.sessions;
            && ss != []
            && var s := ss[|ss| - 1];
               && s.id == r.id && LastsFor(s, r.now, Effective(st).ttl)
               && s.clientIp == (if r.client.peer.Some? then r.client.peer.value else Trim(r.client.claimed.value))
               && (s.voucherId.Some? <==> Effective(st).voucherMode)
               && forall i :: 0 <= i < |ss| - 1 ==> ss[i].clientIp != s.clientIp
  {
    var st1, s := AuthorizeAdmits(st, r);
    AdmittedIsLast(st1, s, r.load);
    LastsFromTo(s, r.now, Effective(st).ttl);
  }

  lemma AuthorizeAdmits(st: State, r: Request) returns (st1: State, s: Session)
    requires r.Authorize? && After(st, r).1.Ok?
    ensures After(st, r) == Admitted(st1, s, r.load)
    ensures st1.config.Some? ==> st1.config.value.idleTimeout == Effective(st).idleTimeout
    ensures s.id == r.id && s.lastSeen == r.now && s.expires == r.now + Effective(st).ttl
    ensures s.clientIp == if r.client.peer.Some? then r.client.peer.value else Trim(r.client.claimed.value)
    ensures s.voucherId.Some? <==> Effective(st).voucherMode
  {
    var cfg := Effective(st);
    var ip := MayAuthorize(cfg, r.client, r.accepted).value;
    var redeemed := AfterRedeem(st, r.code, r.now, r.configSaved);
    RedeemsIff(cfg, r.code, r.now);
    st1 := redeemed.0;
    s := Session(r.id, ip, r.now, r.now + cfg.ttl, redeemed.1.value);
  }

  lemma LastsFromTo(s: Session, now: int, seconds: nat)
    requires s.lastSeen == now && s.expires == now + seconds
    ensures LastsFor(s, now, seconds)
  {
  }

  /** The administrator's sessions are accepted exactly if their texts are valid and they last a
      minute at least. */
  lemma CreateIsAcceptedIff(st: State, r: Request)
    requires r.CreateSession? && r.sessionsSaved && Loads(r.load)
    ensures After(st, r).1.Ok? <==>
            r.textsValid && 60 <= if r.ttl.Some? then r.ttl.value else Effective(st).ttl
  {
  }

  /** They are for the time asked or else the configured one, and replace the address's session. */
  lemma CreatedSessionLasts(st: State, r: Request)
    requires r.CreateSession? && After(st, r).1.Ok?
    requires var cfg, seconds := Effective(st), r.ttl.GetOr(Effective(st).ttl);
             r.load.now < r.now + seconds && (cfg.idleTimeout > 0 ==> r.load.now < r.now + cfg.idleTimeout)
    ensures var ss := After(st, r).0.sessions;
            && ss != []
            && var s := ss[|ss| - 1];
               && s.id == r.id && s.clientIp == Trim(r.ip) && s.voucherId == None
               && LastsFor(s, r.now, if r.ttl.Some? then r.ttl.value else Effective(st).ttl)
               && forall i :: 0 <= i < |ss| - 1 ==> ss[i].clientIp != s.clientIp
  {
    var s := CreateAdmits(st, r);
    AdmittedIsLast(st, s, r.load);
    LastsFromTo(s, r.now, r.ttl.GetOr(Effective(st).ttl));
  }

  lemma CreateAdmits(st: State, r: Request) returns (s: Session)
    requires r.CreateSession? && After(st, r).1.Ok?
    ensures After(st, r) == Admitted(st, s, r.load)
    ensures s.id == r.id && s.lastSeen == r.now && s.expires == r.now + r.ttl.GetOr(Effective(st).ttl)
    ensures s.clientIp == Trim(r.ip) && s.voucherId == None
  {
    s := Session(r.id, Trim(r.ip), r.now, r.now + r.ttl.GetOr(Effective(st).ttl), None);
  }

  /** A revoked session is gone, and so are all of a client that logs out. */
  lemma RevokedAndLoggedOutAreGone(st: State, r: Request, s: Session)
    requires After(st, r).1.Ok?
    requires (r.RevokeSession? && s.id == r.id) || (r.Logout? && Some(s.clientIp) == r.peer)
    ensures s !in After(st, r).0.sessions
  {
    match r
    case RevokeSession(id, _, load) => InFilteredAndKept(st, NotId(id), load, s);
    case Logout(peer, _, load) => InFilteredAndKept(st, NotIp(peer.value), load, s);
  }

  lemma InFilteredAndKept(st: State, keep: Keep, l: Reload, s: Session)
    ensures s in Reloaded(st.(sessions := Filter(st.sessions, keep)), l).0.sessions ==> Keeps(keep, s)
  {
    InReloaded(st.(sessions := Filter(st.sessions, keep)), l, s);
    InFilter(st.sessions, keep, s);
  }

  /** The requests that are about a session: they end, replace or refresh it. */
  predicate Concerns(r: Request, s: Session) {
    match r
    case CreateSession(ip, _, _, _, _, _, _) => s.clientIp == Trim(ip)
    case Authorize(client, _, _, _, _, _, _, _) => ClientIp(client) == Ok(s.clientIp)
    case RevokeSession(id, _, _) => s.id == id
    case Logout(peer, _, _) => peer == Some(s.clientIp)
    case Status(peer, _, _) => peer == Some(s.clientIp)
    case _ => false
  }

  /** It is active at every moment at which the request may drop the inactive ones. */
  predicate ActiveThrough(st: State, r: Request, s: Session) {
    var idle := if r.UpdateConfig? then r.config.idleTimeout else Effective(st).idleTimeout;
    && (!r.Status? ==> Active(idle, s, r.load.now))
    && (r.UpdateConfig? || r.Reap? ==> Active(idle, s, r.now))
  }

  lemma PrunedKeepsActive(st: State, idleTimeout: nat, now: int, saved: bool, s: Session)
    requires s in st.sessions && Active(idleTimeout, s, now)
    ensures s in Pruned(st, idleTimeout, now, saved).0.sessions
  {
    InFilter(st.sessions, ActiveAt(idleTimeout, now), s);
  }

  lemma ReloadedKeepsActive(st: State, l: Reload, s: Session)
    requires s in st.sessions && (st.config.Some? ==> Active(st.config.value.idleTimeout, s, l.now))
    ensures s in Reloaded(st, l).0.sessions
  {
    if st.config.Some? {
      PrunedKeepsActive(st, st.config.value.idleTimeout, l.now, l.pruneSaved, s);
    }
  }

  lemma FilteredKeepsOthers(st: State, keep: Keep, l: Reload, s: Session)
    requires s in st.sessions && Keeps(keep, s) && (st.config.Some? ==> Active(st.config.value.idleTimeout, s, l.now))
    ensures s in Reloaded(st.(sessions := Filter(st.sessions, keep)), l).0.sessions
  {
    InFilter(st.sessions, keep, s);
    ReloadedKeepsActive(st.(sessions := Filter(st.sessions, keep)), l, s);
  }

  lemma AdmittedKeepsOthers(st: State, admitted: Session, l: Reload, s: Session)
    requires s in st.sessions && s.clientIp != admitted.clientIp
    requires st.config.Some? ==> Active(st.config.value.idleTimeout, s, l.now)
    ensures s in Admitted(st, admitted, l).0.sessions
  {
    InFilter(st.sessions, NotIp(admitted.clientIp), s);
    var issued := st.issued + (if admitted.voucherId.Some? then [admitted.voucherId.value] else []);
    ReloadedKeepsActive(st.(sessions := Granted(st.sessions, admitted), issued := issued), l, s);
  }

  /** No other request ends a session that is active: whatever fails, it stays as it is. */
  lemma OthersKeepTheirSessions(st: State, r: Request, s: Session)
    requires s in st.sessions && !Concerns(r, s) && ActiveThrough(st, r, s)
    ensures s in After(st, r).0.sessions
  {
    match r
    case UpdateConfig(_, _, _, _, _, _) => UpdateKeepsOthers(st, r, s);
    case CreateSession(_, _, _, _, _, _, _) => CreateKeepsOthers(st, r, s);
    case RevokeSession(id, _, load) => FilteredKeepsOthers(st, NotId(id), load, s);
    case Status(_, _, _) => StatusKeepsOthers(st, r, s);
    case Authorize(_, _, _, _, _, _, _, _) => AuthorizeKeepsOthers(st, r, s);
    case Logout(peer, _, load) =>
      if peer.Some? {
        FilteredKeepsOthers(st, NotIp(peer.value), load, s);
      }
    case Reap(_, _, _) => ReapKeepsOthers(st, r, s);
  }

  lemma UpdateKeepsOthers(st: State, r: Request, s: Session)
    requires r.UpdateConfig? && s in st.sessions && ActiveThrough(st, r, s)
    ensures s in After(st, r).0.sessions
  {
    var st1 := st.(config := Some(r.config));
    PrunedKeepsActive(st1, r.config.idleTimeout, r.now, r.sessionsSaved, s);
    ReloadedKeepsActive(Pruned(st1, r.config.idleTimeout, r.now, r.sessionsSaved).0, r.load, s);
  }

  lemma CreateKeepsOthers(st: State, r: Request, s: Session)
    requires r.CreateSession? && s in st.sessions && s.clientIp != Trim(r.ip) && ActiveThrough(st, r, s)
    ensures s in After(st, r).0.sessions
  {
    forall n: Session | n.clientIp == Trim(r.ip) ensures s in Admitted(st, n, r.load).0.sessions {
      AdmittedKeepsOthers(st, n, r.load, s);
    }
  }

  lemma ReapKeepsOthers(st: State, r: Request, s: Session)
    requires r.Reap? && s in st.sessions && ActiveThrough(st, r, s)
    ensures s in After(st, r).0.sessions
  {
    if st.config.Some? {
      PrunedKeepsActive(st, st.config.value.idleTimeout, r.now, r.sessionsSaved, s);
      ReloadedKeepsActive(Pruned(st, st.config.value.idleTimeout, r.now, r.sessionsSaved).0, r.load, s);
    }
  }

  lemma StatusKeepsOthers(st: State, r: Request, s: Session)
    requires r.Status? && s in st.sessions && r.peer != Some(s.clientIp)
    ensures s in After(st, r).0.sessions
  {
    var i :| 0 <= i < |st.sessions| && st.sessions[i] == s;
    assert |After(st, r).0.sessions| == |st.sessions| && After(st, r).0.sessions[i] == s;
  }

  lemma AuthorizeKeepsOthers(st: State, r: Request, s: Session)
    requires r.Authorize? && s in st.sessions && ClientIp(r.client) != Ok(s.clientIp)
    requires Active(Effective(st).idleTimeout, s, r.load.now)
    ensures s in After(st, r).0.sessions
  {
    forall st1: State, n: Session
      | st1.sessions == st.sessions && n.clientIp != s.clientIp
        && (st1.config.Some? ==> Active(st1.config.value.idleTimeout, s, r.load.now))
      ensures s in Admitted(st1, n, r.load).0.sessions
    {
      AdmittedKeepsOthers(st1, n, r.load, s);
    }
  }

  /** The reaper leaves a portal that is off, or was never configured, alone; of one that is on it
      keeps exactly the sessions active at its moment and, if it dropped any, when it then loads
      the rules. */
  lemma ReapKeepsExactlyTheActive(st: State, r: Request, s: Session)
    requires r.Reap? && r.sessionsSaved && Loads(r.load)
    ensures var st' := After(st, r).0;
            if !Effective(st).enabled then st' == st
            else
              var idle := Effective(st).idleTimeout;
              && st'.config == st.config
              && ((forall x :: x in st.sessions ==> Active(idle, x, r.now)) ==> st' == st)
              && ((exists x :: x in st.sessions && !Active(idle, x, r.now)) ==>
                    (s in st'.sessions <==> s in st.sessions && Active(idle, s, r.now) && Active(idle, s, r.load.now)))
  {
    if st.config.Some? {
      var idle := st.config.value.idleTimeout;
      var st1 := Pruned(st, idle, r.now, true).0;
      FilterShrinks(st.sessions, ActiveAt(idle, r.now));
      AllKept(st.sessions, ActiveAt(idle, r.now));
      forall x ensures x in st1.sessions <==> x in st.sessions && Active(idle, x, r.now) {
        PrunedKeepsExactly(st, idle, r.now, x);
      }
      ReloadKeepsExactlyTheActive(st1, r.load, s);
    }
  }

  lemma {:induction false} AllKept(ss: seq<Session>, keep: Keep)
    ensures (forall s :: s in ss ==> Keeps(keep, s)) ==> Filter(ss, keep) == ss
  {
    if ss != [] {
      var n := |ss| - 1;
      assert ss == ss[..n] + [ss[n]];
      AllKept(ss[..n], keep);
    }
  }

  ghost predicate HasActive(st: State, ip: string, now: int) {
    exists s :: s in st.sessions && s.clientIp == ip && Active(Effective(st).idleTimeout, s, now)
  }

  lemma {:induction false} FindsActiveIff(ss: seq<Session>, ip: string, idle: nat, now: int)
    ensures FindActive(ss, ip, idle, now).Some? <==> exists s :: s in ss && s.clientIp == ip && Active(idle, s, now)
  {
    if ss != [] {
      FindsActiveIff(ss[1..], ip, idle, now);
      assert ss == [ss[0]] + ss[1..];
    }
  }

  /** A status request of a client with an active session moves its last-seen time to now, keeping
      everything else about it; of any other it changes nothing. */
  lemma StatusRefreshesTheActive(st: State, r: Request)
    requires r.Status? && r.peer.Some? && r.sessionsSaved && OnePerIp(st.sessions)
    ensures var ss, ss' := st.sessions, After(st, r).0.sessions;
            && |ss'| == |ss|
            && forall i :: 0 <= i < |ss| ==>
                 ss'[i] == if ss[i].clientIp == r.peer.value && Active(Effective(st).idleTimeout, ss[i], r.now)
                           then ss[i].(lastSeen := r.now) else ss[i]
  {
    FindsActiveIff(st.sessions, r.peer.value, Effective(st).idleTimeout, r.now);
    assert forall i :: 0 <= i < |st.sessions| ==> st.sessions[i] in st.sessions;
  }

  /** A config worth keeping: its sessions last a minute at least, idle ones too; every limited
      voucher has a limit and is within it; every voucher is the one found by its code. */
  predicate Usable(cfg: Config) {
    && 60 <= cfg.ttl && (0 < cfg.idleTimeout ==> 60 <= cfg.idleTimeout)
    && forall k :: 0 <= k < |cfg.vouchers| ==>
         var v := cfg.vouchers[k];
         && (v.maxUses.Some? ==> 1 <= v.maxUses.value && v.uses <= v.maxUses.value)
         && FindVoucher(cfg.vouchers, Trim(v.code)) == Some(k)
  }

  lemma ValidIsUsable(cfg: Config)
    ensures ValidConfig(cfg) <==> Usable(cfg)
  {
    var vs := cfg.vouchers;
    if ValidConfig(cfg) {
      forall k | 0 <= k < |vs|
        ensures vs[k].maxUses.Some? ==> 1 <= vs[k].maxUses.value && vs[k].uses <= vs[k].maxUses.value
        ensures FindVoucher(vs, Trim(vs[k].code)) == Some(k)
      {
        assert vs[k] in vs;
        CodeIsFound(vs, k);
      }
    }
    if Usable(cfg) {
      forall i, j | 0 <= i < j < |vs| ensures Trim(vs[i].code) != Trim(vs[j].code) {
        FoundVoucherIsFirst(vs, Trim(vs[j].code));
      }
    }
  }

  lemma CodeIsFound(vs: seq<Voucher>, k: nat)
    requires k < |vs|
    requires forall i, j :: 0 <= i < j < |vs| ==> Trim(vs[i].code) != Trim(vs[j].code)
    ensures FindVoucher(vs, Trim(vs[k].code)) == Some(k)
  {
    FoundVoucherIsFirst(vs, Trim(vs[k].code));
  }

  /** An edit of the config is refused as invalid exactly unless the config is usable (and the
      rest of it valid); one that is not and can be saved takes effect, whatever fails later. */
  lemma ConfigIsAcceptedIff(st: State, r: Request)
    requires r.UpdateConfig?
    ensures After(st, r) == (st, Err(Invalid)) <==> !(r.othersValid && Usable(r.config))
    ensures r.othersValid && Usable(r.config) && r.configSaved ==> After(st, r).0.config == Some(r.config)
  {
    ValidIsUsable(r.config);
  }

  // ---------------------------------------------------------------------------
  // Expiry and idleness are final
  // ---------------------------------------------------------------------------

  /** The moment a request first reads the clock, if it looks at it. */
  predicate NotBefore(r: Request, t: int) {
    match r
    case Status(_, now, _) => now >= t
    case _ => true
  }

  predicate Issues(r: Request, id: string) {
    (r.CreateSession? && r.id == id) || (r.Authorize? && r.id == id)
  }

  /** Every later session with an id that was there before comes from one that was: same
      address, expiry and voucher, and seen again only if it was active at that moment. */
  lemma SessionsComeFromSessions(st: State, r: Request, s': Session)
    requires s' in After(st, r).0.sessions && !Issues(r, s'.id)
    ensures exists s :: s in st.sessions && s.id == s'.id && s.clientIp == s'.clientIp
              && s.expires == s'.expires && s.voucherId == s'.voucherId
              && (s == s' || (r.Status? && s' == s.(lastSeen := r.now) && Active(Effective(st).idleTimeout, s, r.now)))
  {
    if r.Status? {
      if s' !in st.sessions {
        var p := FindActive(st.sessions, r.peer.value, Effective(st).idleTimeout, r.now);
        assert s' == st.sessions[p.value].(lastSeen := r.now);
        assert st.sessions[p.value] in st.sessions;
      }
    } else {
      OtherRequestsAddNone(st, r, s');
      assert s' in st.sessions;
    }
  }

  lemma OtherRequestsAddNone(st: State, r: Request, s': Session)
    requires s' in After(st, r).0.sessions && !Issues(r, s'.id) && !r.Status?
    ensures s' in st.sessions
  {
    match r
    case UpdateConfig(config, _, _, now, saved, load) =>
      var st1 := st.(config := Some(config));
      InPruned(st1, config.idleTimeout, now, saved, s');
      InReloaded(Pruned(st1, config.idleTimeout, now, saved).0, load, s');
    case CreateSession(_, _, _, _, _, _, load) =>
      forall n: Session | n.id == r.id && s' in Admitted(st, n, load).0.sessions ensures s' in st.sessions {
        InAdmitted(st, n, load, s');
      }
    case RevokeSession(id, _, load) => InFiltered(st, NotId(id), load, s');
    case Authorize(_, _, _, _, _, _, _, _) => AuthorizeAddsOne(st, r, s');
    case Logout(peer, _, load) =>
      if peer.Some? {
        InFiltered(st, NotIp(peer.value), load, s');
      }
    case Reap(now, saved, load) =>
      if st.config.Some? {
        InPruned(st, st.config.value.idleTimeout, now, saved, s');
        InReloaded(Pruned(st, st.config.value.idleTimeout, now, saved).0, load, s');
      }
  }

  lemma AuthorizeAddsOne(st: State, r: Request, s': Session)
    requires r.Authorize? && s' in After(st, r).0.sessions && s'.id != r.id
    ensures s' in st.sessions
  {
    forall st1: State, s: Session | s.id == r.id && s' in Admitted(st1, s, r.load).0.sessions
      ensures s' in st1.sessions
    {
      InAdmitted(st1, s, r.load, s');
    }
  }

  lemma InPruned(st: State, idleTimeout: nat, now: int, saved: bool, s: Session)
    ensures s in Pruned(st, idleTimeout, now, saved).0.sessions ==> s in st.sessions
  {
    InFilter(st.sessions, ActiveAt(idleTimeout, now), s);
  }

  lemma InReloaded(st: State, l: Reload, s: Session)
    ensures s in Reloaded(st, l).0.sessions ==> s in st.sessions
  {
    if st.config.Some? {
      InPruned(st, st.config.value.idleTimeout, l.now, l.pruneSaved, s);
    }
  }

  lemma InFiltered(st: State, keep: Keep, l: Reload, s: Session)
    ensures s in Reloaded(st.(sessions := Filter(st.sessions, keep)), l).0.sessions ==> s in st.sessions
  {
    InReloaded(st.(sessions := Filter(st.sessions, keep)), l, s);
    InFilter(st.sessions, keep, s);
  }

  lemma InAdmitted(st: State, admitted: Session, l: Reload, s: Session)
    requires s.id != admitted.id
    ensures s in Admitted(st, admitted, l).0.sessions ==> s in st.sessions
  {
    var issued := st.issued + (if admitted.voucherId.Some? then [admitted.voucherId.value] else []);
    InReloaded(st.(sessions := Granted(st.sessions, admitted), issued := issued), l, s);
    InFilter(st.sessions, NotIp(admitted.clientIp), s);
  }

  /** An edit of the config that is not accepted or cannot be saved. */
  predicate Refused(r: Request)
    requires r.UpdateConfig?
  {
    !r.othersValid || !ValidConfig(r.config) || !r.configSaved
  }

  predicate FixedConfig(rs: seq<Request>) {
    forall r :: r in rs && r.UpdateConfig? ==> Refused(r)
  }

  lemma RequestKeepsIdleTimeout(st: State, r: Request)
    requires r.UpdateConfig? ==> Refused(r)
    ensures Effective(After(st, r).0).idleTimeout == Effective(st).idleTimeout
  {
  }

  /** A session keeps its expiry through any run, so it is never active at or past it. */
  lemma {:induction false} RefreshNeverExtendsExpiry(st: State, rs: seq<Request>, id: string, expires: int)
    requires forall s :: s in st.sessions && s.id == id ==> s.expires == expires
    requires forall r :: r in rs ==> !Issues(r, id)
    ensures forall s :: s in Exec(st, rs).sessions && s.id == id ==> s.expires == expires
    ensures forall s, idle, now :: s in Exec(st, rs).sessions && s.id == id && Active(idle, s, now) ==> now < expires
    decreases |rs|
  {
    if rs != [] {
      assert rs[0] in rs;
      var st' := After(st, rs[0]).0;
      forall s' | s' in st'.sessions && s'.id == id ensures s'.expires == expires {
        SessionsComeFromSessions(st, rs[0], s');
      }
      RefreshNeverExtendsExpiry(st', rs[1..], id, expires);
    }
  }

  /** A session once inactive, be it expired or idle, is inactive in every later state. */
  lemma {:induction false} InactiveStaysInactive(st: State, rs: seq<Request>, id: string, t: int)
    requires forall s :: s in st.sessions && s.id == id ==> !Active(Effective(st).idleTimeout, s, t)
    requires FixedConfig(rs) && forall r :: r in rs ==> !Issues(r, id) && NotBefore(r, t)
    ensures forall s, now :: s in Exec(st, rs).sessions && s.id == id && now >= t ==>
              !Active(Effective(Exec(st, rs)).idleTimeout, s, now)
    decreases |rs|
  {
    if rs != [] {
      assert rs[0] in rs;
      var st' := After(st, rs[0]).0;
      RequestKeepsIdleTimeout(st, rs[0]);
      forall s' | s' in st'.sessions && s'.id == id ensures !Active(Effective(st').idleTimeout, s', t) {
        SessionsComeFromSessions(st, rs[0], s');
      }
      InactiveStaysInactive(st', rs[1..], id, t);
    }
  }

  // ---------------------------------------------------------------------------
  // Vouchers are counted
  // ---------------------------------------------------------------------------

  function UsesOf(vs: seq<Voucher>, id: string): nat {
    if vs == [] then 0
    else UsesOf(vs[..|vs| - 1], id) + (if vs[|vs| - 1].id == id then vs[|vs| - 1].uses else 0)
  }

  function IssuedOn(issued: seq<string>, id: string): nat {
    if issued == [] then 0
    else IssuedOn(issued[..|issued| - 1], id) + (if issued[|issued| - 1] == id then 1 else 0)
  }

  lemma {:induction false} UsesOfUpdate(vs: seq<Voucher>, p: nat, v: Voucher, id: string)
    requires p < |vs| && v.id == vs[p].id
    ensures UsesOf(vs[p := v], id) == UsesOf(vs, id) + (if v.id == id then v.uses - vs[p].uses else 0)
  {
    var n := |vs| - 1;
    if p < n {
      UsesOfUpdate(vs[..n], p, v, id);
      assert vs[p := v][..n] == vs[..n][p := v];
    } else {
      assert vs[p := v][..n] == vs[..n];
    }
  }

  /** Limits hold and sessions gained on a voucher are at most the uses gained on it. */
  predicate Counted(st: State, st': State, id: string) {
    && WithinLimits(Effective(st').vouchers)
    && IssuedOn(st'.issued, id) - IssuedOn(st.issued, id)
       <= UsesOf(Effective(st').vouchers, id) - UsesOf(Effective(st).vouchers, id)
  }

  lemma IssuedOnSnoc(issued: seq<string>, vid: string, id: string)
    ensures IssuedOn(issued + [vid], id) == IssuedOn(issued, id) + (if vid == id then 1 else 0)
  {
    assert (issued + [vid])[..|issued|] == issued;
  }

  predicate Saturated(v: Voucher) {
    v.maxUses.None? && v.uses == U32_MAX
  }

  /** If the request redeems a voucher with the id, its counter has room. */
  predicate CountsUse(st: State, r: Request, id: string) {
    r.Authorize? ==>
      var red := Redeem(Effective(st), r.code, r.now);
      red.Ok? && red.value.Some? && Effective(st).vouchers[red.value.value].id == id ==>
        !Saturated(Effective(st).vouchers[red.value.value])
  }

  /** What an authorisation that redeems voucher `p` writes: nothing, the use alone if the session
      cannot be saved, or both. */
  lemma RedeemingWrites(st: State, r: Request, p: nat)
    requires r.Authorize? && Redeem(Effective(st), r.code, r.now) == Ok(Some(p))
    ensures var vs, st' := Effective(st).vouchers, After(st, r).0;
            var used := vs[p := Used(vs[p])];
            || (Effective(st').vouchers == vs && st'.issued == st.issued)
            || (Effective(st').vouchers == used && st'.issued == st.issued)
            || (Effective(st').vouchers == used && st'.issued == st.issued + [vs[p].id])
  {
  }

  /** One more use on the books, and perhaps one more session. */
  lemma UseOnTheBooks(vs: seq<Voucher>, p: nat, issued: seq<string>, id: string)
    requires p < |vs| && !Exhausted(vs[p]) && WithinLimits(vs)
    ensures var used := vs[p := Used(vs[p])];
            && WithinLimits(used)
            && UsesOf(used, id) == UsesOf(vs, id) + (if vs[p].id == id && !Saturated(vs[p]) then 1 else 0)
            && IssuedOn(issued + [vs[p].id], id) == IssuedOn(issued, id) + (if vs[p].id == id then 1 else 0)
  {
    UsesOfUpdate(vs, p, Used(vs[p]), id);
    RedeemingCountsIff(vs[p]);
    IssuedOnSnoc(issued, vs[p].id, id);
  }

  lemma AuthorizeCounts(st: State, r: Request, id: string)
    requires r.Authorize? && CountsUse(st, r, id) && WithinLimits(Effective(st).vouchers)
    ensures Counted(st, After(st, r).0, id)
  {
    var red := Redeem(Effective(st), r.code, r.now);
    if red.Ok? && red.value.Some? {
      RedeemingWrites(st, r, red.value.value);
      UseOnTheBooks(Effective(st).vouchers, red.value.value, st.issued, id);
    } else {
      assert st.issued + [] == st.issued;
    }
  }

  /** A request that issues a session on a voucher keeps the books exactly unless the voucher is
      unlimited and its counter at the end of its range. */
  lemma AuthorizeCountsIff(st: State, r: Request, p: nat)
    requires r.Authorize? && After(st, r).0.issued != st.issued && WithinLimits(Effective(st).vouchers)
    requires Redeem(Effective(st), r.code, r.now) == Ok(Some(p))
    ensures var v := Effective(st).vouchers[p]; Counted(st, After(st, r).0, v.id) <==> !Saturated(v)
  {
    RedeemingWrites(st, r, p);
    UseOnTheBooks(Effective(st).vouchers, p, st.issued, Effective(st).vouchers[p].id);
  }

  /** What one request does to the voucher counters and to the sessions issued on them. */
  lemma RequestCounts(st: State, r: Request, id: string)
    requires (r.UpdateConfig? ==> Refused(r)) && CountsUse(st, r, id) && WithinLimits(Effective(st).vouchers)
    ensures Counted(st, After(st, r).0, id)
  {
    if r.Authorize? {
      AuthorizeCounts(st, r, id);
    } else {
      assert st.issued + [] == st.issued;
    }
  }

  predicate AlwaysCountsUse(st: State, rs: seq<Request>, id: string)
    decreases |rs|
  {
    rs != [] ==> CountsUse(st, rs[0], id) && AlwaysCountsUse(After(st, rs[0]).0, rs[1..], id)
  }

  /** Between edits of the config no voucher is used past its limit, and no more sessions are
      issued on a voucher than uses are counted on it, as long as it is not redeemed saturated. */
  lemma {:induction false} IssuedSessionsAreCounted(st: State, rs: seq<Request>, id: string)
    requires FixedConfig(rs) && AlwaysCountsUse(st, rs, id) && WithinLimits(Effective(st).vouchers)
    ensures Counted(st, Exec(st, rs), id)
    decreases |rs|
  {
    if rs != [] {
      assert rs[0] in rs;
      RequestCounts(st, rs[0], id);
      IssuedSessionsAreCounted(After(st, rs[0]).0, rs[1..], id);
    }
  }

  /** Room in the counters of the unlimited vouchers with the id for `n` more uses. */
  predicate RoomFor(vs: seq<Voucher>, id: string, n: nat) {
    forall i :: 0 <= i < |vs| && vs[i].id == id && vs[i].maxUses.None? ==> vs[i].uses + n <= U32_MAX
  }

  lemma RequestKeepsRoom(st: State, r: Request, id: string, room: nat)
    requires (r.UpdateConfig? ==> Refused(r)) && RoomFor(Effective(st).vouchers, id, room + 1)
    ensures CountsUse(st, r, id) && RoomFor(Effective(After(st, r).0).vouchers, id, room)
  {
  }

  /** In particular when the counters have room for a use in every request. */
  lemma {:induction false} RoomIsEnough(st: State, rs: seq<Request>, id: string)
    requires FixedConfig(rs) && RoomFor(Effective(st).vouchers, id, |rs|)
    ensures AlwaysCountsUse(st, rs, id)
    decreases |rs|
  {
    if rs != [] {
      assert rs[0] in rs;
      RequestKeepsRoom(st, rs[0], id, |rs| - 1);
      RoomIsEnough(After(st, rs[0]).0, rs[1..], id);
    }
  }

  /** Limits hold over every run, edits of the config included. */
  lemma {:induction false} LimitsAlwaysHold(st: State, rs: seq<Request>)
    requires WithinLimits(Effective(st).vouchers)
    ensures WithinLimits(Effective(Exec(st, rs)).vouchers)
    decreases |rs|
  {
    if rs != [] {
      LimitsAlwaysHold(After(st, rs[0]).0, rs[1..]);
    }
  }

  // ---------------------------------------------------------------------------
  // The portal
  // ---------------------------------------------------------------------------

  class Portal {
    var config: Option<Config>
    var sessions: seq<Session>
    ghost var issued: seq<string>

    constructor (st: State)
      ensures Now() == st
    {
      config, sessions, issued := st.config, st.sessions, st.issued;
    }

    ghost function Now(): State
      reads this
    {
      State(config, sessions, issued)
    }

    method Retain(keep: Keep)
      modifies `sessions
      ensures sessions == Filter(old(sessions), keep)
    {
      var kept := [];
      for k := 0 to |sessions|
        invariant sessions == old(sessions)
        invariant kept == Filter(sessions[..k], keep)
      {
        assert sessions[..k + 1][..k] == sessions[..k];
        if Keeps(keep, sessions[k]) {
          kept := kept + [sessions[k]];
        }
      }
      assert sessions[..|sessions|] == sessions;
      sessions := kept;
    }

    /** Drops the inactive sessions; returns whether this could be saved, if there was need to. */
    method PruneExpired(idleTimeout: nat, now: int, saved: bool) returns (ok: bool)
      modifies `sessions
      ensures (Now(), ok) == Pruned(old(Now()), idleTimeout, now, saved)
    {
      var before := sessions;
      Retain(ActiveAt(idleTimeout, now));
      if |sessions| == |before| {
        sessions := before;
        return true;
      }
      if !saved {
        sessions := before;
      }
      return saved;
    }

    method ApplyCurrentRuleset(l: Reload) returns (r: Result<(), Error>)
      modifies `sessions
      ensures (Now(), r) == Reloaded(old(Now()), l)
    {
      if !l.filesRead {
        return Err(EngineError);
      }
      if config.Some? {
        var ok := PruneExpired(config.value.idleTimeout, l.now, l.pruneSaved);
        if !ok {
          return Err(EngineError);
        }
      }
      return if l.rulesLoaded then Ok(()) else Err(EngineError);
    }

    method Admit(s: Session, l: Reload) returns (r: Result<(), Error>)
      modifies `sessions, `issued
      ensures (Now(), r) == Admitted(old(Now()), s, l)
    {
      Retain(NotIp(s.clientIp));
      sessions := sessions + [s];
      issued := issued + (if s.voucherId.Some? then [s.voucherId.value] else []);
      r := ApplyCurrentRuleset(l);
    }

    method UpdateAdminConfig(cfg: Config, othersValid: bool, configSaved: bool, now: int, sessionsSaved: bool,
                             l: Reload) returns (r: Result<(), Error>)
      modifies this
      ensures (Now(), r) == After(old(Now()), UpdateConfig(cfg, othersValid, configSaved, now, sessionsSaved, l))
    {
      if !othersValid || !ValidConfig(cfg) {
        return Err(Invalid);
      }
      if !configSaved {
        return Err(Storage);
      }
      config := Some(cfg);
      var ok := PruneExpired(cfg.idleTimeout, now, sessionsSaved);
      if !ok {
        return Err(Storage);
      }
      r := ApplyCurrentRuleset(l);
    }

    method CreateAdminSession(ip: string, textsValid: bool, ttl: Option<nat>, id: string, now: int, saved: bool,
                              l: Reload) returns (r: Result<(), Error>)
      modifies this
      ensures (Now(), r) == After(old(Now()), CreateSession(ip, textsValid, ttl, id, now, saved, l))
    {
      if !textsValid {
        return Err(Invalid);
      }
      var seconds := ttl.GetOr(config.GetOr(DEFAULT_CONFIG).ttl);
      if seconds < 60 {
        return Err(Invalid);
      }
      if !saved {
        return Err(Storage);
      }
      r := Admit(Session(id, Trim(ip), now, now + seconds, None), l);
    }

    method RevokeAdminSession(id: string, saved: bool, l: Reload) returns (r: Result<(), Error>)
      modifies this
      ensures (Now(), r) == After(old(Now()), RevokeSession(id, saved, l))
    {
      var before := sessions;
      Retain(NotId(id));
      if |sessions| == |before| {
        sessions := before;
        return Err(NotFound);
      }
      if !saved {
        sessions := before;
        return Err(Storage);
      }
      r := ApplyCurrentRuleset(l);
    }

    /** Answers whether the client is authorised. */
    method PublicStatus(peer: Option<string>, now: int, saved: bool) returns (r: Result<bool, Error>)
      modifies this
      ensures Now() == After(old(Now()), Status(peer, now, saved)).0
      ensures r.Err? <==> After(old(Now()), Status(peer, now, saved)).1.Err?
      ensures r.Err? ==> r.error == After(old(Now()), Status(peer, now, saved)).1.error
      ensures r.Ok? ==> r.value == HasActive(old(Now()), peer.value, now)
    {
      if peer.None? {
        return Err(Invalid);
      }
      var idle := config.GetOr(DEFAULT_CONFIG).idleTimeout;
      var p := FindActive(sessions, peer.value, idle, now);
      FindsActiveIff(sessions, peer.value, idle, now);
      if p.None? {
        return Ok(false);
      }
      if !saved {
        return Err(Storage);
      }
      sessions := sessions[p.value := sessions[p.value].(lastSeen := now)];
      return Ok(true);
    }

    method PublicAuthorize(client: Client, accepted: bool, code: Option<string>, id: string, now: int,
                           configSaved: bool, sessionsSaved: bool, l: Reload) returns (r: Result<(), Error>)
      modifies this
      ensures (Now(), r) ==
              AfterAuthorize(old(Now()), client, accepted, code, id, now, configSaved, sessionsSaved, l)
    {
      var cfg := config.GetOr(DEFAULT_CONFIG);
      var ip := CheckRequest(cfg, client, accepted);
      if ip.Err? {
        return Err(ip.error);
      }
      var voucherId := RedeemAndSave(code, now, configSaved);
      if voucherId.Err? {
        return Err(voucherId.error);
      }
      if !sessionsSaved {
        return Err(Storage);
      }
      r := Admit(Session(id, ip.value, now, now + cfg.ttl, voucherId.value), l);
    }

    /** The address to authorise. */
    method CheckRequest(cfg: Config, client: Client, accepted: bool) returns (ip: Result<string, Error>)
      ensures ip == MayAuthorize(cfg, client, accepted)
    {
      if !cfg.enabled {
        return Err(Forbidden);
      }
      if cfg.termsRequired && !accepted {
        return Err(Invalid);
      }
      ip := ClientIp(client);
      if ip.Ok? && !client.macValid {
        return Err(Invalid);
      }
    }

    method RedeemAndSave(code: Option<string>, now: int, canSave: bool) returns (r: Result<Option<string>, Error>)
      modifies `config
      ensures (Now(), r) == AfterRedeem(old(Now()), code, now, canSave)
    {
      var cfg, voucherId := RedeemVoucher(config.GetOr(DEFAULT_CONFIG), code, now);
      if voucherId.Err? || voucherId.value.None? {
        return voucherId;
      }
      if !canSave {
        return Err(Storage);
      }
      config := Some(cfg);
      return voucherId;
    }

    /** Returns the config with the use counted and the id of the voucher used. */
    method RedeemVoucher(cfg: Config, code: Option<string>, now: int)
      returns (spent: Config, r: Result<Option<string>, Error>)
      ensures r.Err? <==> Redeem(cfg, code, now).Err?
      ensures r.Err? ==> spent == cfg && r.error == Redeem(cfg, code, now).error
      ensures r.Ok? ==>
                var p := Redeem(cfg, code, now).value;
                && spent == (if p.Some? then Spent(cfg, p.value) else cfg)
                && r.value == (if p.Some? then Some(cfg.vouchers[p.value].id) else None)
    {
      spent := cfg;
      if !cfg.voucherMode {
        return spent, Ok(None);
      }
      if code.None? || Trim(code.value) == "" {
        return spent, Err(Invalid);
      }
      var p := FindVoucher(cfg.vouchers, Trim(code.value));
      if p.None? {
        return spent, Err(Forbidden);
      }
      var v := cfg.vouchers[p.value];
      if !v.enabled || (v.expires.Some? && v.expires.value <= now) || (v.maxUses.Some? && v.uses >= v.maxUses.value) {
        return spent, Err(Forbidden);
      }
      v := v.(uses := if v.uses < U32_MAX then v.uses + 1 else v.uses);
      spent := cfg.(vouchers := cfg.vouchers[p.value := v]);
      return spent, Ok(Some(v.id));
    }

    method PublicLogout(peer: Option<string>, saved: bool, l: Reload) returns (r: Result<(), Error>)
      modifies this
      ensures (Now(), r) == After(old(Now()), Logout(peer, saved, l))
    {
      if peer.None? {
        return Err(Invalid);
      }
      if !saved {
        return Err(Storage);
      }
      Retain(NotIp(peer.value));
      r := ApplyCurrentRuleset(l);
    }

    method ReapSessions(now: int, saved: bool, l: Reload)
      modifies this
      ensures Now() == AfterReap(old(Now()), now, saved, l)
    {
      if config.None? || !config.value.enabled {
        return;
      }
      var before := |sessions|;
      var ok := PruneExpired(config.value.idleTimeout, now, saved);
      if ok && |sessions| != before {
        var _ := ApplyCurrentRuleset(l);
      }
    }
  }
}
