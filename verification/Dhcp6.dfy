/**
 DHCPv6 scopes and static reservations behind the configuration API.
 */
module Dhcp6 {
  import opened Wrappers
  import opened Text
  import opened Ipv6Text

  datatype Reservation = Reservation(id: string, duid: string, ip: string, dns: seq<string>, ntp: seq<string>)

  datatype Scope = Scope(subnet: string, poolStart: string, poolEnd: string, dns: seq<string>, leaseSeconds: nat,
                         domain: Option<string>, reservations: seq<Reservation>)

  datatype Config = Config(enabled: bool, iface: string, scopes: seq<Scope>)

  const EMPTY := Config(false, "", [])

  datatype UpdateRequest = UpdateRequest(enabled: Option<bool>, iface: Option<string>, subnet: Option<string>,
                                         rangeStart: Option<string>, rangeEnd: Option<string>,
                                         dns: Option<seq<string>>, leaseTime: Option<nat>, domain: Option<string>)

  /** `id` is the random id the reservation will get. */
  datatype LeaseRequest = LeaseRequest(id: string, duid: Option<string>, mac: Option<string>, ip: string,
                                       dns: Option<seq<string>>, ntp: Option<seq<string>>)

  datatype Error = Invalid | Storage

  // ---------------------------------------------------------------------------
  // Validation
  // ---------------------------------------------------------------------------

  predicate HexPair(s: string) {
    |s| == 2 && forall i :: 0 <= i < 2 ==> '0' <= s[i] <= '9' || 'a' <= s[i] <= 'f' || 'A' <= s[i] <= 'F'
  }

  predicate ValidDuid(s: string) {
    var parts := Split(s, ':');
    |parts| >= 3 && forall p :: p in parts ==> HexPair(p)
  }

  /** Only colons separate here: with hyphens the DUID made of the address is refused. */
  predicate ValidMac(s: string) {
    var parts := Split(s, ':');
    |parts| == 6 && forall p :: p in parts ==> HexPair(p)
  }

  predicate ValidAddr(c: Codec, s: string) {
    c.addr(s).Some?
  }

  predicate AllValidAddrs(c: Codec, ss: seq<string>) {
    forall s :: s in ss ==> ValidAddr(c, s)
  }

  /** A CIDR in full, without the white space and the bare addresses a request may have. */
  predicate ValidCidr(c: Codec, s: string) {
    var split := SplitOnce(s);
    split.Some? && c.addr(split.value.0).Some?
    && c.prefix(split.value.1).Some? && c.prefix(split.value.1).value <= 128
  }

  predicate ValidReservation(c: Codec, r: Reservation, subnet: string) {
    ValidDuid(r.duid) && ValidAddr(c, r.ip) && AddrInCidr(c, r.ip, subnet)
    && AllValidAddrs(c, r.dns) && AllValidAddrs(c, r.ntp)
  }

  predicate ValidScope(c: Codec, s: Scope) {
    && Trim(s.subnet) != "" && ValidCidr(c, s.subnet)
    && Trim(s.poolStart) != "" && ValidAddr(c, s.poolStart)
    && Trim(s.poolEnd) != "" && ValidAddr(c, s.poolEnd)
    && c.addr(s.poolStart).value <= c.addr(s.poolEnd).value
    && AddrInCidr(c, s.poolStart, s.subnet) && AddrInCidr(c, s.poolEnd, s.subnet)
    && s.leaseSeconds > 0 && AllValidAddrs(c, s.dns)
    && forall r :: r in s.reservations ==> ValidReservation(c, r, s.subnet)
  }

  predicate ValidForApply(c: Codec, cfg: Config) {
    && (cfg.enabled ==> Trim(cfg.iface) != "" && cfg.scopes != [])
    && forall s :: s in cfg.scopes ==> ValidScope(c, s)
  }

  // ---------------------------------------------------------------------------
  // The edits
  // ---------------------------------------------------------------------------

  function NormalizedScope(c: Codec, s: Scope): Scope {
    s.(subnet := NormalizeCidr(c, s.subnet).GetOr(s.subnet))
  }

  function NormalizedSubnets(c: Codec, cfg: Config): Config {
    cfg.(scopes := seq(|cfg.scopes|, i requires 0 <= i < |cfg.scopes| => NormalizedScope(c, cfg.scopes[i])))
  }

  predicate Given(o: Option<string>) {
    o.Some? && Trim(o.value) != ""
  }

  predicate HasScopeValues(r: UpdateRequest) {
    Given(r.subnet) || Given(r.rangeStart) || Given(r.rangeEnd) || (r.dns.Some? && r.dns.value != []) || Given(r.domain)
  }

  function TrimmedNonEmpty(ss: seq<string>): seq<string> {
    if ss == [] then []
    else (if Trim(ss[0]) == "" then [] else [Trim(ss[0])]) + TrimmedNonEmpty(ss[1..])
  }

  /** The first scope with the request's values, subnet already normalised. */
  function UpdatedScope(s: Scope, r: UpdateRequest, subnet: Option<string>): Scope {
    s.(subnet := subnet.GetOr(s.subnet),
       poolStart := if r.rangeStart.Some? then Trim(r.rangeStart.value) else s.poolStart,
       poolEnd := if r.rangeEnd.Some? then Trim(r.rangeEnd.value) else s.poolEnd,
       dns := if r.dns.Some? then TrimmedNonEmpty(r.dns.value) else s.dns,
       leaseSeconds := r.leaseTime.GetOr(s.leaseSeconds),
       domain := if r.domain.Some? then (if Trim(r.domain.value) == "" then None else Some(Trim(r.domain.value)))
                 else s.domain)
  }

  function ApplyScopeRequest(c: Codec, cfg: Config, r: UpdateRequest): Result<Config, Error> {
    var subnet := if Given(r.subnet) then NormalizeCidr(c, Trim(r.subnet.value)) else None;
    if Given(r.subnet) && subnet.None? then Err(Invalid)
    else if cfg.scopes == [] && !cfg.enabled && !HasScopeValues(r) then Ok(cfg)
    else
      var first := subnet.GetOr(if Given(r.rangeStart) then NormalizeCidr(c, r.rangeStart.value).GetOr("fd00::/64")
                                else "fd00::/64");
      var scopes := if cfg.scopes == [] then [Scope(first, "", "", [], 86400, None, [])] else cfg.scopes;
      Ok(cfg.(scopes := scopes[0 := UpdatedScope(scopes[0], r, subnet)]))
  }

  function NormalizedDuid(r: LeaseRequest): Result<string, Error> {
    if Given(r.duid) then
      var d := Lower(Trim(r.duid.value));
      if ValidDuid(d) then Ok(d) else Err(Invalid)
    else if Given(r.mac) then
      var m := Lower(Trim(r.mac.value));
      var d := "00:03:00:01:" + m;
      if ValidMac(m) && ValidDuid(d) then Ok(d) else Err(Invalid)
    else Err(Invalid)
  }

  function Overrides(c: Codec, values: Option<seq<string>>): Result<seq<string>, Error> {
    var vs := TrimmedNonEmpty(values.GetOr([]));
    if AllValidAddrs(c, vs) then Ok(vs) else Err(Invalid)
  }

  /** All reservations, scope by scope. */
  function AllReservations(scopes: seq<Scope>): seq<Reservation> {
    if scopes == [] then [] else scopes[0].reservations + AllReservations(scopes[1..])
  }

  predicate DuidTaken(scopes: seq<Scope>, duid: string) {
    exists r :: r in AllReservations(scopes) && EqIgnoreCase(r.duid, duid)
  }

  predicate IpTaken(scopes: seq<Scope>, ip: string) {
    exists r :: r in AllReservations(scopes) && EqIgnoreCase(r.ip, ip)
  }

  function ScopeFor(c: Codec, scopes: seq<Scope>, ip: string): (p: Option<nat>)
    ensures p.Some? ==> p.value < |scopes|
  {
    if scopes == [] then None
    else if AddrInCidr(c, ip, scopes[0].subnet) then Some(0)
    else
      Shifted(ScopeFor(c, scopes[1..], ip), 1)
  }

  function Shifted(p: Option<nat>, k: nat): Option<nat> {
    if p.Some? then Some(p.value + k) else None
  }

  function WithReservation(scopes: seq<Scope>, k: nat, r: Reservation): seq<Scope>
    requires k < |scopes|
  {
    scopes[k := scopes[k].(reservations := scopes[k].reservations + [r])]
  }

  /** The reservation a request asks for, if its texts are valid. */
  function Requested(c: Codec, r: LeaseRequest): Result<Reservation, Error> {
    var duid, ip, dns, ntp := NormalizedDuid(r), Trim(r.ip), Overrides(c, r.dns), Overrides(c, r.ntp);
    if duid.Err? || dns.Err? || ntp.Err? || !ValidAddr(c, ip) then Err(Invalid)
    else Ok(Reservation(r.id, duid.value, ip, dns.value, ntp.value))
  }

  /** Puts a reservation with a new DUID and address into the first scope that covers it. */
  function Placed(c: Codec, cfg: Config, r: Reservation): Result<Config, Error> {
    if cfg.scopes == [] || DuidTaken(cfg.scopes, r.duid) || IpTaken(cfg.scopes, r.ip) then Err(Invalid)
    else
      var k := ScopeFor(c, cfg.scopes, r.ip);
      if k.None? then Err(Invalid)
      else
        var cfg' := cfg.(scopes := WithReservation(cfg.scopes, k.value, r));
        if ValidForApply(c, cfg') then Ok(cfg') else Err(Invalid)
  }

  function AddReservation(c: Codec, cfg: Config, r: LeaseRequest, iface: Option<string>): Result<Config, Error> {
    if iface.Some? && cfg.iface != iface.value && cfg.iface != "" then Err(Invalid)
    else
      var res := Requested(c, r);
      if res.Err? then Err(res.error)
      else Placed(c, if iface.Some? then cfg.(iface := iface.value) else cfg, res.value)
  }

  function Kept(rs: seq<Reservation>, id: string): seq<Reservation> {
    if rs == [] then [] else (if rs[0].id == id then [] else [rs[0]]) + Kept(rs[1..], id)
  }

  function WithoutId(scopes: seq<Scope>, id: string): seq<Scope> {
    seq(|scopes|, i requires 0 <= i < |scopes| => scopes[i].(reservations := Kept(scopes[i].reservations, id)))
  }

  // ---------------------------------------------------------------------------
  // The requests
  // ---------------------------------------------------------------------------

  /** `iface` is the interface of the per-interface routes; `saved` says whether the config
      file could be written. */
  datatype Request =
    | Update(r: UpdateRequest, iface: Option<string>, saved: bool)
    | Create(lease: LeaseRequest, iface: Option<string>, saved: bool)
    | Delete(id: string, iface: Option<string>, saved: bool)

  /** What a request would save. */
  function Edited(c: Codec, cfg: Config, q: Request): Result<Config, Error> {
    match q
    case Update(r, iface, _) =>
      var cfg1 := cfg.(enabled := r.enabled.GetOr(cfg.enabled),
                       iface := if iface.Some? then iface.value
                                else if r.iface.Some? then Trim(r.iface.value) else cfg.iface);
      var cfg2 := ApplyScopeRequest(c, cfg1, r);
      if cfg2.Err? then cfg2
      else if ValidForApply(c, cfg2.value) then Ok(NormalizedSubnets(c, cfg2.value)) else Err(Invalid)
    case Create(lease, iface, _) =>
      var cfg1 := AddReservation(c, cfg, lease, iface);
      if cfg1.Err? then cfg1 else Ok(NormalizedSubnets(c, cfg1.value))
    case Delete(id, iface, _) =>
      if iface.Some? && cfg.iface != iface.value then Err(Invalid)
      else
        var cfg1 := cfg.(scopes := WithoutId(cfg.scopes, id));
        if |AllReservations(cfg1.scopes)| == |AllReservations(cfg.scopes)| then Err(Invalid)
        else if iface.Some? && !ValidForApply(c, cfg1) then Err(Invalid)
        else Ok(NormalizedSubnets(c, cfg1))
  }

  function After(c: Codec, cfg: Config, q: Request): (Config, Result<(), Error>) {
    var e := Edited(c, cfg, q);
    if e.Err? then (cfg, Err(e.error))
    else if !q.saved then (cfg, Err(Storage))
    else (e.value, Ok(()))
  }

  function Exec(c: Codec, cfg: Config, qs: seq<Request>): Config
    decreases |qs|
  {
    if qs == [] then cfg else Exec(c, After(c, cfg, qs[0]).0, qs[1..])
  }

  // ---------------------------------------------------------------------------
  // What every accepted request keeps
  // ---------------------------------------------------------------------------

  predicate Distinct(rs: seq<Reservation>) {
    forall i, j :: 0 <= i < j < |rs| ==> !EqIgnoreCase(rs[i].duid, rs[j].duid) && !EqIgnoreCase(rs[i].ip, rs[j].ip)
  }

  predicate InSubnet(c: Codec, s: Scope) {
    forall r :: r in s.reservations ==> AddrInCidr(c, r.ip, s.subnet)
  }

  predicate Sound(c: Codec, cfg: Config) {
    (forall i :: 0 <= i < |cfg.scopes| ==> InSubnet(c, cfg.scopes[i])) && Distinct(AllReservations(cfg.scopes))
  }

  lemma {:induction false} SameReservations(a: seq<Scope>, b: seq<Scope>)
    requires |a| == |b| && forall i :: 0 <= i < |a| ==> a[i].reservations == b[i].reservations
    ensures AllReservations(a) == AllReservations(b)
  {
    if a != [] {
      assert forall i :: 0 <= i < |a| - 1 ==> a[1..][i] == a[i + 1] && b[1..][i] == b[i + 1];
      SameReservations(a[1..], b[1..]);
    }
  }

  /** Where a new reservation ends up among all of them. */
  lemma {:induction false} AddedInPlace(scopes: seq<Scope>, k: nat, r: Reservation) returns (p: nat)
    requires k < |scopes|
    ensures var all := AllReservations(scopes);
            p <= |all| && AllReservations(WithReservation(scopes, k, r)) == all[..p] + [r] + all[p..]
  {
    var all := AllReservations(scopes);
    var first, rest := scopes[0].reservations, AllReservations(scopes[1..]);
    if k == 0 {
      p := |first|;
      assert WithReservation(scopes, 0, r)[1..] == scopes[1..];
      assert all[..p] == first && all[p..] == rest;
    } else {
      assert WithReservation(scopes, k, r)[1..] == WithReservation(scopes[1..], k - 1, r);
      var q := AddedInPlace(scopes[1..], k - 1, r);
      p := |first| + q;
      assert all[..p] == first + rest[..q] && all[p..] == rest[q..];
    }
  }

  lemma InsertKeepsDistinct(rs: seq<Reservation>, p: nat, r: Reservation)
    requires Distinct(rs) && p <= |rs|
    requires forall e :: e in rs ==> !EqIgnoreCase(e.duid, r.duid) && !EqIgnoreCase(e.ip, r.ip)
    ensures Distinct(rs[..p] + [r] + rs[p..])
  {
    var rs' := rs[..p] + [r] + rs[p..];
    forall i, j | 0 <= i < j < |rs'|
      ensures !EqIgnoreCase(rs'[i].duid, rs'[j].duid) && !EqIgnoreCase(rs'[i].ip, rs'[j].ip)
    {
      assert i != p ==> rs'[i] == rs[if i < p then i else i - 1];
      assert j != p ==> rs'[j] == rs[if j < p then j else j - 1];
    }
  }

  lemma {:induction false} KeptIsDistinct(rs: seq<Reservation>, id: string)
    requires Distinct(rs)
    ensures Distinct(Kept(rs, id))
  {
    if rs != [] {
      KeptIsDistinct(rs[1..], id);
      KeptMembers(rs[1..], id);
      forall r | r in rs[1..] ensures !EqIgnoreCase(rs[0].duid, r.duid) && !EqIgnoreCase(rs[0].ip, r.ip) {
        var i :| 0 <= i < |rs| - 1 && rs[1..][i] == r;
      }
    }
  }

  lemma {:induction false} KeptConcat(a: seq<Reservation>, b: seq<Reservation>, id: string)
    ensures Kept(a + b, id) == Kept(a, id) + Kept(b, id)
  {
    if a == [] {
      assert a + b == b;
    } else {
      assert (a + b)[1..] == a[1..] + b;
      KeptConcat(a[1..], b, id);
    }
  }

  lemma {:induction false} WithoutIdKeeps(scopes: seq<Scope>, id: string)
    ensures AllReservations(WithoutId(scopes, id)) == Kept(AllReservations(scopes), id)
  {
    if scopes != [] {
      WithoutIdKeeps(scopes[1..], id);
      assert WithoutId(scopes, id)[1..] == WithoutId(scopes[1..], id);
      KeptConcat(scopes[0].reservations, AllReservations(scopes[1..]), id);
    }
  }

  lemma {:induction false} KeptMembers(rs: seq<Reservation>, id: string)
    ensures forall r :: r in Kept(rs, id) <==> r in rs && r.id != id
  {
    if rs != [] {
      assert rs == [rs[0]] + rs[1..];
      KeptMembers(rs[1..], id);
    }
  }

  /** Normalising subnets changes neither the reservations nor which of them fit. */
  lemma NormalizingKeepsSound(c: Codec, cfg: Config)
    requires Lawful(c) && Sound(c, cfg)
    ensures Sound(c, NormalizedSubnets(c, cfg))
    ensures AllReservations(NormalizedSubnets(c, cfg).scopes) == AllReservations(cfg.scopes)
  {
    var cfg' := NormalizedSubnets(c, cfg);
    SameReservations(cfg'.scopes, cfg.scopes);
    forall i | 0 <= i < |cfg.scopes| ensures InSubnet(c, cfg'.scopes[i]) {
      forall r | r in cfg'.scopes[i].reservations ensures AddrInCidr(c, r.ip, cfg'.scopes[i].subnet) {
        assert InSubnet(c, cfg.scopes[i]);
        if NormalizeCidr(c, cfg.scopes[i].subnet).Some? {
          NormalizingKeepsMembers(c, r.ip, cfg.scopes[i].subnet);
        }
      }
    }
  }

  /** Every saved subnet is in normal form, host bits cleared. */
  predicate Canonical(c: Codec, cfg: Config) {
    forall i :: 0 <= i < |cfg.scopes| ==>
      NormalizeCidr(c, cfg.scopes[i].subnet).GetOr(cfg.scopes[i].subnet) == cfg.scopes[i].subnet
  }

  lemma NormalizingIsCanonical(c: Codec, cfg: Config)
    requires Lawful(c)
    ensures Canonical(c, NormalizedSubnets(c, cfg))
  {
    forall i | 0 <= i < |cfg.scopes|
      ensures var s := NormalizedScope(c, cfg.scopes[i]).subnet; NormalizeCidr(c, s).GetOr(s) == s
    {
      if NormalizeCidr(c, cfg.scopes[i].subnet).Some? {
        NormalizingKeepsMembers(c, "", cfg.scopes[i].subnet);
      }
    }
  }

  lemma PlacingAddsOne(c: Codec, cfg: Config, r: Reservation)
    requires Placed(c, cfg, r).Ok?
    ensures multiset(AllReservations(Placed(c, cfg, r).value.scopes))
         == multiset(AllReservations(cfg.scopes)) + multiset{r}
  {
    AddedMultiset(cfg.scopes, ScopeFor(c, cfg.scopes, r.ip).value, r);
  }

  lemma AddedMultiset(scopes: seq<Scope>, k: nat, r: Reservation)
    requires k < |scopes|
    ensures multiset(AllReservations(WithReservation(scopes, k, r))) == multiset(AllReservations(scopes)) + multiset{r}
  {
    var all := AllReservations(scopes);
    var p := AddedInPlace(scopes, k, r);
    assert all == all[..p] + all[p..];
  }

  /** What an accepted request does to the reservations as a whole: an update leaves them alone,
      a create adds the one asked for, a delete drops those with the id. */
  lemma AcceptedRequestsChangeReservationsSo(c: Codec, cfg: Config, q: Request)
    requires Edited(c, cfg, q).Ok?
    ensures var all := AllReservations(cfg.scopes);
            var all' := AllReservations(Edited(c, cfg, q).value.scopes);
            match q
            case Update(_, _, _) => all' == all
            case Create(lease, _, _) =>
              Requested(c, lease).Ok? && multiset(all') == multiset(all) + multiset{Requested(c, lease).value}
            case Delete(id, _, _) => all' == Kept(all, id) != all
  {
    match q
    case Update(r, iface, _) =>
      var cfg1 := cfg.(enabled := r.enabled.GetOr(cfg.enabled),
                       iface := if iface.Some? then iface.value
                                else if r.iface.Some? then Trim(r.iface.value) else cfg.iface);
      ScopeRequestKeepsReservations(c, cfg1, r);
      NormalizingKeepsReservations(c, ApplyScopeRequest(c, cfg1, r).value);
    case Create(lease, iface, _) =>
      var cfg1 := if iface.Some? then cfg.(iface := iface.value) else cfg;
      PlacingAddsOne(c, cfg1, Requested(c, lease).value);
      NormalizingKeepsReservations(c, Placed(c, cfg1, Requested(c, lease).value).value);
    case Delete(id, _, _) =>
      WithoutIdKeeps(cfg.scopes, id);
      NormalizingKeepsReservations(c, cfg.(scopes := WithoutId(cfg.scopes, id)));
  }

  lemma NormalizingKeepsReservations(c: Codec, cfg: Config)
    ensures AllReservations(NormalizedSubnets(c, cfg).scopes) == AllReservations(cfg.scopes)
  {
    SameReservations(NormalizedSubnets(c, cfg).scopes, cfg.scopes);
  }

  lemma ValidMeansInSubnet(c: Codec, cfg: Config)
    requires ValidForApply(c, cfg)
    ensures forall i :: 0 <= i < |cfg.scopes| ==> InSubnet(c, cfg.scopes[i])
  {
    forall i | 0 <= i < |cfg.scopes| ensures InSubnet(c, cfg.scopes[i]) {
      assert ValidScope(c, cfg.scopes[i]);
    }
  }

  lemma ScopeRequestKeepsReservations(c: Codec, cfg: Config, r: UpdateRequest)
    requires ApplyScopeRequest(c, cfg, r).Ok?
    ensures AllReservations(ApplyScopeRequest(c, cfg, r).value.scopes) == AllReservations(cfg.scopes)
  {
    var cfg' := ApplyScopeRequest(c, cfg, r).value;
    if cfg.scopes == [] {
      assert |cfg'.scopes| <= 1;
      assert |cfg'.scopes| == 1 ==> cfg'.scopes[1..] == [] && cfg'.scopes[0].reservations == [];
    } else {
      SameReservations(cfg'.scopes, cfg.scopes);
    }
  }

  lemma PlacingKeepsSound(c: Codec, cfg: Config, r: Reservation)
    requires Sound(c, cfg) && Placed(c, cfg, r).Ok?
    ensures Sound(c, Placed(c, cfg, r).value)
  {
    var k := ScopeFor(c, cfg.scopes, r.ip).value;
    var p := AddedInPlace(cfg.scopes, k, r);
    InsertKeepsDistinct(AllReservations(cfg.scopes), p, r);
    ValidMeansInSubnet(c, Placed(c, cfg, r).value);
  }

  lemma DeleteKeepsSound(c: Codec, cfg: Config, id: string)
    requires Sound(c, cfg)
    ensures Sound(c, cfg.(scopes := WithoutId(cfg.scopes, id)))
  {
    WithoutIdKeeps(cfg.scopes, id);
    KeptIsDistinct(AllReservations(cfg.scopes), id);
    forall i | 0 <= i < |cfg.scopes| ensures InSubnet(c, WithoutId(cfg.scopes, id)[i]) {
      assert InSubnet(c, cfg.scopes[i]);
      KeptMembers(cfg.scopes[i].reservations, id);
    }
  }

  lemma RequestKeepsSound(c: Codec, cfg: Config, q: Request)
    requires Lawful(c) && Sound(c, cfg)
    ensures Sound(c, After(c, cfg, q).0)
  {
    if Edited(c, cfg, q).Ok? {
      match q
      case Update(r, iface, _) =>
        var cfg1 := cfg.(enabled := r.enabled.GetOr(cfg.enabled),
                         iface := if iface.Some? then iface.value
                                  else if r.iface.Some? then Trim(r.iface.value) else cfg.iface);
        ScopeRequestKeepsReservations(c, cfg1, r);
        ValidMeansInSubnet(c, ApplyScopeRequest(c, cfg1, r).value);
        NormalizingKeepsSound(c, ApplyScopeRequest(c, cfg1, r).value);
      case Create(lease, iface, _) =>
        PlacingKeepsSound(c, if iface.Some? then cfg.(iface := iface.value) else cfg, Requested(c, lease).value);
        NormalizingKeepsSound(c, AddReservation(c, cfg, lease, iface).value);
      case Delete(id, _, _) =>
        DeleteKeepsSound(c, cfg, id);
        NormalizingKeepsSound(c, cfg.(scopes := WithoutId(cfg.scopes, id)));
    }
  }

  lemma RequestKeepsCanonical(c: Codec, cfg: Config, q: Request)
    requires Lawful(c) && Canonical(c, cfg)
    ensures Canonical(c, After(c, cfg, q).0)
  {
    forall cfg1: Config ensures Canonical(c, NormalizedSubnets(c, cfg1)) {
      NormalizingIsCanonical(c, cfg1);
    }
  }

  lemma {:induction false} RunKeepsSound(c: Codec, cfg: Config, qs: seq<Request>)
    requires Lawful(c) && Sound(c, cfg) && Canonical(c, cfg)
    ensures Sound(c, Exec(c, cfg, qs)) && Canonical(c, Exec(c, cfg, qs))
    decreases |qs|
  {
    if qs != [] {
      RequestKeepsSound(c, cfg, qs[0]);
      RequestKeepsCanonical(c, cfg, qs[0]);
      RunKeepsSound(c, After(c, cfg, qs[0]).0, qs[1..]);
    }
  }

  /** From the empty config on, whatever is requested: every reservation lies in the subnet of
      its scope, no two share a DUID or an address text, ignoring case, and every subnet has
      its host bits cleared. */
  lemma ReservationsStaySound(c: Codec, qs: seq<Request>)
    requires Lawful(c)
    ensures Sound(c, Exec(c, EMPTY, qs)) && Canonical(c, Exec(c, EMPTY, qs))
  {
    RunKeepsSound(c, EMPTY, qs);
  }

  // ---------------------------------------------------------------------------
  // What the texts of a request come to
  // ---------------------------------------------------------------------------

  /** Groups of two hexadecimal digits joined by colons. */
  ghost predicate HexGroups(s: string, groups: seq<string>) {
    s == JoinWith(groups, ':')
    && forall g :: g in groups ==> |g| == 2 && g[0] in "0123456789abcdefABCDEF" && g[1] in "0123456789abcdefABCDEF"
  }

  lemma HexPairIff(s: string)
    ensures HexPair(s) <==> |s| == 2 && s[0] in "0123456789abcdefABCDEF" && s[1] in "0123456789abcdefABCDEF"
    ensures HexPair(s) ==> ':' !in s
  {
    if |s| == 2 {
      assert s == [s[0]] + [s[1]];
    }
  }

  lemma HexTextIff(s: string, at: nat)
    ensures (exists groups :: |groups| == at && at > 0 && HexGroups(s, groups)) <==>
            |Split(s, ':')| == at && forall p :: p in Split(s, ':') ==> HexPair(p)
  {
    JoinUndoesSplit(s, ':');
    if |Split(s, ':')| == at && forall p :: p in Split(s, ':') ==> HexPair(p) {
      forall g | g in Split(s, ':')
        ensures |g| == 2 && g[0] in "0123456789abcdefABCDEF" && g[1] in "0123456789abcdefABCDEF"
      {
        HexPairIff(g);
      }
      assert HexGroups(s, Split(s, ':'));
    }
    if groups :| |groups| == at && at > 0 && HexGroups(s, groups) {
      forall g | g in groups ensures HexPair(g) && ':' !in g {
        HexPairIff(g);
      }
      SplitUndoesJoin(groups, ':');
    }
  }

  /** A DUID is three or more such groups, a MAC address six. */
  lemma DuidAndMacIff(s: string)
    ensures ValidDuid(s) <==> exists groups :: |groups| >= 3 && HexGroups(s, groups)
    ensures ValidMac(s) <==> exists groups :: |groups| == 6 && HexGroups(s, groups)
  {
    HexTextIff(s, |Split(s, ':')|);
    HexTextIff(s, 6);
    if groups :| |groups| >= 3 && HexGroups(s, groups) {
      HexTextIff(s, |groups|);
    }
  }

  /** A DUID comes from the one given, or else from the MAC address given, which follows type 3
      for Ethernet; in lower case. A request with neither is refused. */
  lemma DuidOfARequest(r: LeaseRequest)
    ensures var d := NormalizedDuid(r);
            if Given(r.duid) then
              d == if ValidDuid(Lower(Trim(r.duid.value))) then Ok(Lower(Trim(r.duid.value))) else Err(Invalid)
            else if Given(r.mac) then
              var mac := Lower(Trim(r.mac.value));
              d == if ValidMac(mac) then Ok("00:03:00:01:" + mac) else Err(Invalid)
            else d == Err(Invalid)
    ensures NormalizedDuid(r).Ok? ==> ValidDuid(NormalizedDuid(r).value)
  {
    if !Given(r.duid) && Given(r.mac) {
      var m := Lower(Trim(r.mac.value));
      if ValidMac(m) {
        PrefixKeepsDuid(m);
      }
    }
  }

  lemma PrefixKeepsDuid(m: string)
    requires ValidMac(m)
    ensures ValidDuid("00:03:00:01:" + m)
  {
    PrefixSplits(m);
    assert HexPair("00") && HexPair("01") && HexPair("03");
  }

  function Prefixed(groups: seq<string>, m: string): string {
    if groups == [] then m else groups[0] + ([':'] + Prefixed(groups[1..], m))
  }

  lemma {:induction false} PrefixedSplits(groups: seq<string>, m: string)
    requires forall g :: g in groups ==> ':' !in g
    ensures Split(Prefixed(groups, m), ':') == groups + Split(m, ':')
  {
    if groups != [] {
      PrefixedSplits(groups[1..], m);
      SplitFirst(groups[0], Prefixed(groups[1..], m), ':');
      assert groups == [groups[0]] + groups[1..];
    } else {
      assert groups + Split(m, ':') == Split(m, ':');
    }
  }

  lemma PrefixText(m: string)
    ensures "00:03:00:01:" + m == "00" + ([':'] + ("03" + ([':'] + ("00" + ([':'] + ("01" + ([':'] + m)))))))
  {
  }

  lemma PrefixSplits(m: string)
    ensures Split("00:03:00:01:" + m, ':') == ["00", "03", "00", "01"] + Split(m, ':')
  {
    var groups := ["00", "03", "00", "01"];
    assert groups[1..] == ["03", "00", "01"] && groups[2..] == ["00", "01"] && groups[3..] == ["01"];
    PrefixText(m);
    assert Prefixed(["01"], m) == "01" + ([':'] + m);
    assert Prefixed(["00", "01"], m) == "00" + ([':'] + Prefixed(["01"], m)) by {
      assert ["00", "01"][1..] == ["01"];
    }
    assert Prefixed(["03", "00", "01"], m) == "03" + ([':'] + Prefixed(["00", "01"], m)) by {
      assert ["03", "00", "01"][1..] == ["00", "01"];
    }
    PrefixedSplits(groups, m);
  }

  lemma {:induction false} TrimmedMembers(ss: seq<string>, x: string)
    ensures x in TrimmedNonEmpty(ss) <==> x != "" && exists t :: t in ss && Trim(t) == x
  {
    if ss != [] {
      TrimmedMembers(ss[1..], x);
      assert ss == [ss[0]] + ss[1..];
    }
  }

  /** A reservation as requested: its own id, the DUID, the address without white space, and the
      server addresses given, if all of these are addresses. */
  lemma ReservationOfARequest(c: Codec, r: LeaseRequest, x: string)
    ensures var dns, ntp := r.dns.GetOr([]), r.ntp.GetOr([]);
            Requested(c, r).Ok? <==>
            && NormalizedDuid(r).Ok? && c.addr(Trim(r.ip)).Some?
            && (forall t :: t in dns + ntp && Trim(t) != "" ==> c.addr(Trim(t)).Some?)
    ensures Requested(c, r).Ok? ==>
              var v, dns, ntp := Requested(c, r).value, r.dns.GetOr([]), r.ntp.GetOr([]);
              && v.id == r.id && Ok(v.duid) == NormalizedDuid(r) && v.ip == Trim(r.ip)
              && (x in v.dns <==> x != "" && exists t :: t in dns && Trim(t) == x)
              && (x in v.ntp <==> x != "" && exists t :: t in ntp && Trim(t) == x)
  {
    var dns, ntp := r.dns.GetOr([]), r.ntp.GetOr([]);
    OverridesIff(c, r.dns);
    OverridesIff(c, r.ntp);
    TrimmedMembers(dns, x);
    TrimmedMembers(ntp, x);
    assert forall t :: t in dns + ntp <==> t in dns || t in ntp;
  }

  lemma OverridesIff(c: Codec, values: Option<seq<string>>)
    ensures Overrides(c, values).Ok? <==>
            forall t :: t in values.GetOr([]) && Trim(t) != "" ==> c.addr(Trim(t)).Some?
    ensures Overrides(c, values).Ok? ==> Overrides(c, values).value == TrimmedNonEmpty(values.GetOr([]))
  {
    var ss := values.GetOr([]);
    forall x ensures x in TrimmedNonEmpty(ss) <==> x != "" && exists t :: t in ss && Trim(t) == x {
      TrimmedMembers(ss, x);
    }
    if AllValidAddrs(c, TrimmedNonEmpty(ss)) {
      forall t | t in ss && Trim(t) != "" ensures c.addr(Trim(t)).Some? {
        assert Trim(t) in TrimmedNonEmpty(ss);
        assert ValidAddr(c, Trim(t));
      }
    }
  }

  /** What an accepted update does to the first scope, field by field: a value given replaces the
      old one, without outer white space; a value not given stays. The other scopes stay. */
  lemma UpdateSetsWhatIsGiven(c: Codec, cfg: Config, q: Request, x: string)
    requires q.Update? && Edited(c, cfg, q).Ok? && cfg.scopes != []
    ensures var cfg', r := Edited(c, cfg, q).value, q.r;
            && |cfg'.scopes| == |cfg.scopes|
            && (forall i :: 0 < i < |cfg.scopes| ==> cfg'.scopes[i] == NormalizedScope(c, cfg.scopes[i]))
            && cfg'.enabled == (if r.enabled.Some? then r.enabled.value else cfg.enabled)
            && cfg'.iface == (if q.iface.Some? then q.iface.value
                              else if r.iface.Some? then Trim(r.iface.value) else cfg.iface)
            && var s, s' := cfg.scopes[0], cfg'.scopes[0];
               && s'.poolStart == (if r.rangeStart.Some? then Trim(r.rangeStart.value) else s.poolStart)
               && s'.poolEnd == (if r.rangeEnd.Some? then Trim(r.rangeEnd.value) else s.poolEnd)
               && s'.leaseSeconds == (if r.leaseTime.Some? then r.leaseTime.value else s.leaseSeconds)
               && (r.domain.None? ==> s'.domain == s.domain)
               && (r.domain.Some? ==>
                     s'.domain == if Trim(r.domain.value) == "" then None else Some(Trim(r.domain.value)))
               && (r.dns.None? ==> s'.dns == s.dns)
               && (r.dns.Some? ==> (x in s'.dns <==> x != "" && exists t :: t in r.dns.value && Trim(t) == x))
               && s'.reservations == s.reservations
  {
    if q.r.dns.Some? {
      TrimmedMembers(q.r.dns.value, x);
    }
  }

  /** And to its subnet: the members are those of the one given, or else those from before. */
  lemma UpdateSetsTheSubnet(c: Codec, cfg: Config, q: Request, addr: string)
    requires Lawful(c) && q.Update? && Edited(c, cfg, q).Ok? && cfg.scopes != []
    ensures var given := q.r.subnet;
            AddrInCidr(c, addr, Edited(c, cfg, q).value.scopes[0].subnet) <==>
            AddrInCidr(c, addr, if Given(given) then Trim(given.value) else cfg.scopes[0].subnet)
  {
    var asked := if Given(q.r.subnet) then Trim(q.r.subnet.value) else cfg.scopes[0].subnet;
    if NormalizeCidr(c, asked).Some? {
      NormalizingKeepsMembers(c, addr, asked);
      NormalizingKeepsMembers(c, addr, NormalizeCidr(c, asked).value);
    }
  }

  /** The first scope of a config without any: it is made if the service is on or a value for it
      given, and what is not given is a day of lease time and nothing else. */
  lemma UpdateMakesTheFirstScope(c: Codec, cfg: Config, q: Request)
    requires q.Update? && Edited(c, cfg, q).Ok? && cfg.scopes == []
    ensures var cfg', r := Edited(c, cfg, q).value, q.r;
            if cfg'.enabled || (r.dns.Some? && r.dns.value != [])
               || exists o :: o in [r.subnet, r.rangeStart, r.rangeEnd, r.domain] && o.Some? && Trim(o.value) != ""
            then
              && |cfg'.scopes| == 1
              && var s := cfg'.scopes[0];
                 && s.leaseSeconds == (if r.leaseTime.Some? then r.leaseTime.value else 86400)
                 && r.rangeStart.Some? && s.poolStart == Trim(r.rangeStart.value)
                 && r.rangeEnd.Some? && s.poolEnd == Trim(r.rangeEnd.value)
                 && (r.domain.None? ==> s.domain == None) && (r.dns.None? ==> s.dns == []) && s.reservations == []
            else cfg'.scopes == []
  {
    assert Trim("") == "";
    var texts := [q.r.subnet, q.r.rangeStart, q.r.rangeEnd, q.r.domain];
    assert texts[0] in texts && texts[1] in texts && texts[2] in texts && texts[3] in texts;
    var cfg1 := cfg.(enabled := q.r.enabled.GetOr(cfg.enabled),
                     iface := if q.iface.Some? then q.iface.value
                              else if q.r.iface.Some? then Trim(q.r.iface.value) else cfg.iface);
    var cfg2 := ApplyScopeRequest(c, cfg1, q.r).value;
    assert ValidForApply(c, cfg2);
    if cfg2.scopes != [] {
      assert ValidScope(c, cfg2.scopes[0]);
    }
  }

  /** Its subnet is the one given, else that of the range's first address, else a default. */
  lemma UpdateMakesTheFirstSubnet(c: Codec, cfg: Config, q: Request, addr: string)
    requires Lawful(c) && q.Update? && Edited(c, cfg, q).Ok? && cfg.scopes == [] && Edited(c, cfg, q).value.scopes != []
    ensures var r := q.r;
            AddrInCidr(c, addr, Edited(c, cfg, q).value.scopes[0].subnet) <==>
            AddrInCidr(c, addr, if Given(r.subnet) then Trim(r.subnet.value)
                                else if Given(r.rangeStart) && ParseCidr(c, r.rangeStart.value).Some?
                                then r.rangeStart.value
                                else "fd00::/64")
  {
    var r := q.r;
    var asked := if Given(r.subnet) then Trim(r.subnet.value)
                 else if Given(r.rangeStart) && ParseCidr(c, r.rangeStart.value).Some? then r.rangeStart.value
                 else "fd00::/64";
    if NormalizeCidr(c, asked).Some? {
      NormalizingKeepsMembers(c, addr, asked);
      NormalizingKeepsMembers(c, addr, NormalizeCidr(c, asked).value);
    }
  }

  // ---------------------------------------------------------------------------
  // The pools
  // ---------------------------------------------------------------------------

  /** A scope clients can be served from: its ends are addresses of its subnet in order, leases
      last, and its name servers are addresses. */
  predicate Servable(c: Codec, s: Scope) {
    && c.addr(s.poolStart).Some? && c.addr(s.poolEnd).Some?
    && c.addr(s.poolStart).value <= c.addr(s.poolEnd).value
    && AddrInCidr(c, s.poolStart, s.subnet) && AddrInCidr(c, s.poolEnd, s.subnet)
    && s.leaseSeconds > 0 && (forall d :: d in s.dns ==> c.addr(d).Some?)
  }

  predicate AllServable(c: Codec, cfg: Config) {
    && (cfg.enabled ==> Trim(cfg.iface) != "" && cfg.scopes != [])
    && forall i :: 0 <= i < |cfg.scopes| ==> Servable(c, cfg.scopes[i])
  }

  /** An address, a slash and a prefix of at most 128, with nothing around them. */
  ghost predicate FullCidr(c: Codec, s: string) {
    exists a, b :: CidrOf(c, s, a, b)
  }

  predicate CidrOf(c: Codec, s: string, a: string, b: string) {
    s == a + (['/'] + b) && '/' !in a && c.addr(a).Some? && c.prefix(b).Some? && c.prefix(b).value <= 128
  }

  lemma FullCidrIff(c: Codec, s: string)
    ensures ValidCidr(c, s) <==> FullCidr(c, s)
  {
    if a, b :| CidrOf(c, s, a, b) {
      SplitAtFirstSlash(a, b);
    }
    if ValidCidr(c, s) {
      var split := SplitOnce(s).value;
      assert CidrOf(c, s, split.0, split.1);
    }
  }

  /** What is asked of a config before it is saved: it is on only with an interface and a scope;
      every scope can be served from, its texts are there and its subnet is a full CIDR; and every
      reservation has a DUID, an address in the subnet and servers that are addresses. */
  ghost predicate Presentable(c: Codec, cfg: Config) {
    && AllServable(c, cfg)
    && forall s :: s in cfg.scopes ==>
         && Trim(s.subnet) != "" && Trim(s.poolStart) != "" && Trim(s.poolEnd) != "" && FullCidr(c, s.subnet)
         && forall r :: r in s.reservations ==>
              && (exists groups :: |groups| >= 3 && HexGroups(r.duid, groups))
              && c.addr(r.ip).Some? && AddrInCidr(c, r.ip, s.subnet)
              && forall x :: x in r.dns + r.ntp ==> c.addr(x).Some?
  }

  lemma ValidReservationIff(c: Codec, r: Reservation, subnet: string)
    ensures ValidReservation(c, r, subnet) <==>
            && (exists groups :: |groups| >= 3 && HexGroups(r.duid, groups))
            && c.addr(r.ip).Some? && AddrInCidr(c, r.ip, subnet)
            && forall x :: x in r.dns + r.ntp ==> c.addr(x).Some?
  {
    DuidAndMacIff(r.duid);
    assert forall x :: x in r.dns + r.ntp <==> x in r.dns || x in r.ntp;
    assert (forall x :: x in r.dns + r.ntp ==> ValidAddr(c, x)) <==> AllValidAddrs(c, r.dns) && AllValidAddrs(c, r.ntp);
  }

  lemma ValidScopeIff(c: Codec, s: Scope)
    ensures ValidScope(c, s) <==>
            && Servable(c, s)
            && Trim(s.subnet) != "" && Trim(s.poolStart) != "" && Trim(s.poolEnd) != "" && FullCidr(c, s.subnet)
            && forall r :: r in s.reservations ==> ValidReservation(c, r, s.subnet)
  {
    FullCidrIff(c, s.subnet);
    assert AllValidAddrs(c, s.dns) <==> forall d :: d in s.dns ==> c.addr(d).Some?;
  }

  lemma PresentableIff(c: Codec, cfg: Config)
    ensures ValidForApply(c, cfg) <==> Presentable(c, cfg)
  {
    forall s, r | s in cfg.scopes && r in s.reservations
      ensures ValidReservation(c, r, s.subnet) <==>
              && (exists groups :: |groups| >= 3 && HexGroups(r.duid, groups))
              && c.addr(r.ip).Some? && AddrInCidr(c, r.ip, s.subnet)
              && forall x :: x in r.dns + r.ntp ==> c.addr(x).Some?
    {
      ValidReservationIff(c, r, s.subnet);
    }
    forall i | 0 <= i < |cfg.scopes| ensures ValidScope(c, cfg.scopes[i]) ==> Servable(c, cfg.scopes[i]) {
      ValidScopeIff(c, cfg.scopes[i]);
    }
    forall s | s in cfg.scopes
      ensures ValidScope(c, s) <==>
              && Servable(c, s)
              && Trim(s.subnet) != "" && Trim(s.poolStart) != "" && Trim(s.poolEnd) != "" && FullCidr(c, s.subnet)
              && forall r :: r in s.reservations ==> ValidReservation(c, r, s.subnet)
    {
      ValidScopeIff(c, s);
    }
  }

  /** An update is accepted exactly if the subnet given, if any, is a CIDR or an address and what
      comes out is presentable. */
  lemma UpdateIsAcceptedIff(c: Codec, cfg: Config, q: Request)
    requires q.Update?
    ensures var cfg1 := cfg.(enabled := q.r.enabled.GetOr(cfg.enabled),
                             iface := if q.iface.Some? then q.iface.value
                                      else if q.r.iface.Some? then Trim(q.r.iface.value) else cfg.iface);
            Edited(c, cfg, q).Ok? <==>
            && (Given(q.r.subnet) ==> ParseCidr(c, q.r.subnet.value).Some?)
            && ApplyScopeRequest(c, cfg1, q.r).Ok? && Presentable(c, ApplyScopeRequest(c, cfg1, q.r).value)
  {
    var cfg1 := cfg.(enabled := q.r.enabled.GetOr(cfg.enabled),
                     iface := if q.iface.Some? then q.iface.value
                              else if q.r.iface.Some? then Trim(q.r.iface.value) else cfg.iface);
    if ApplyScopeRequest(c, cfg1, q.r).Ok? {
      PresentableIff(c, ApplyScopeRequest(c, cfg1, q.r).value);
    }
    if Given(q.r.subnet) {
      TrimTwice(q.r.subnet.value);
    }
  }

  /** A delete is accepted exactly if some reservation has the id and, on the routes of one
      interface, that is the configured one and what is left is presentable. */
  lemma DeleteIsAcceptedIff(c: Codec, cfg: Config, q: Request)
    requires q.Delete?
    ensures Edited(c, cfg, q).Ok? <==>
            && (exists r :: r in AllReservations(cfg.scopes) && r.id == q.id)
            && (q.iface.Some? ==>
                  cfg.iface == q.iface.value && Presentable(c, cfg.(scopes := WithoutId(cfg.scopes, q.id))))
  {
    var all := AllReservations(cfg.scopes);
    WithoutIdKeeps(cfg.scopes, q.id);
    KeptShrinksIff(all, q.id);
    PresentableIff(c, cfg.(scopes := WithoutId(cfg.scopes, q.id)));
  }

  lemma {:induction false} KeptShrinksIff(rs: seq<Reservation>, id: string)
    ensures |Kept(rs, id)| <= |rs|
    ensures |Kept(rs, id)| == |rs| <==> forall r :: r in rs ==> r.id != id
  {
    if rs != [] {
      KeptShrinksIff(rs[1..], id);
      assert rs == [rs[0]] + rs[1..];
    }
  }

  lemma ValidIsServable(c: Codec, cfg: Config)
    requires ValidForApply(c, cfg)
    ensures AllServable(c, cfg)
  {
    forall i | 0 <= i < |cfg.scopes| ensures Servable(c, cfg.scopes[i]) {
      assert ValidScope(c, cfg.scopes[i]);
    }
  }

  lemma NormalizingKeepsServable(c: Codec, cfg: Config)
    requires Lawful(c) && AllServable(c, cfg)
    ensures AllServable(c, NormalizedSubnets(c, cfg))
  {
    forall i | 0 <= i < |cfg.scopes| ensures Servable(c, NormalizedScope(c, cfg.scopes[i])) {
      var s := cfg.scopes[i];
      assert Servable(c, s);
      if NormalizeCidr(c, s.subnet).Some? {
        NormalizingKeepsMembers(c, s.poolStart, s.subnet);
        NormalizingKeepsMembers(c, s.poolEnd, s.subnet);
      }
    }
  }

  lemma RequestKeepsServable(c: Codec, cfg: Config, q: Request)
    requires Lawful(c) && AllServable(c, cfg)
    ensures AllServable(c, After(c, cfg, q).0)
  {
    if Edited(c, cfg, q).Ok? {
      match q
      case Update(r, iface, _) =>
        var cfg1 := cfg.(enabled := r.enabled.GetOr(cfg.enabled),
                         iface := if iface.Some? then iface.value
                                  else if r.iface.Some? then Trim(r.iface.value) else cfg.iface);
        ValidIsServable(c, ApplyScopeRequest(c, cfg1, r).value);
        NormalizingKeepsServable(c, ApplyScopeRequest(c, cfg1, r).value);
      case Create(lease, iface, _) =>
        ValidIsServable(c, AddReservation(c, cfg, lease, iface).value);
        NormalizingKeepsServable(c, AddReservation(c, cfg, lease, iface).value);
      case Delete(id, _, _) => NormalizingKeepsServable(c, cfg.(scopes := WithoutId(cfg.scopes, id)));
    }
  }

  /** From the empty config on, whatever is requested, every saved scope can be served from, and
      the service is only on with an interface and a scope. */
  lemma {:induction false} ScopesStayServable(c: Codec, cfg: Config, qs: seq<Request>)
    requires Lawful(c) && (cfg == EMPTY || AllServable(c, cfg))
    ensures AllServable(c, Exec(c, cfg, qs))
    decreases |qs|
  {
    assert AllServable(c, EMPTY);
    if qs != [] {
      RequestKeepsServable(c, cfg, qs[0]);
      ScopesStayServable(c, After(c, cfg, qs[0]).0, qs[1..]);
    }
  }

  // ---------------------------------------------------------------------------
  // Addresses as values
  // ---------------------------------------------------------------------------

  /** No two reservations are for the same address, however it is written. */
  predicate DistinctAddresses(c: Codec, rs: seq<Reservation>) {
    forall i, j :: 0 <= i < j < |rs| ==> c.addr(rs[i].ip) != c.addr(rs[j].ip)
  }

  /** The guards of a create: the interface fits, the texts are valid and not in use, a scope
      covers the address and the config is valid as it stands. */
  ghost predicate TakesLease(c: Codec, cfg: Config, lease: LeaseRequest, iface: Option<string>) {
    var r := Requested(c, lease);
    && (iface.Some? ==> cfg.iface == iface.value || cfg.iface == "")
    && r.Ok? && !DuidTaken(cfg.scopes, r.value.duid) && !IpTaken(cfg.scopes, r.value.ip)
    && (exists s :: s in cfg.scopes && AddrInCidr(c, r.value.ip, s.subnet))
    && Presentable(c, if iface.Some? then cfg.(iface := iface.value) else cfg)
  }

  lemma {:induction false} ScopeForCovers(c: Codec, scopes: seq<Scope>, ip: string)
    ensures var k := ScopeFor(c, scopes, ip);
            && (k.Some? <==> exists s :: s in scopes && AddrInCidr(c, ip, s.subnet))
            && (k.Some? ==> AddrInCidr(c, ip, scopes[k.value].subnet))
  {
    if scopes != [] {
      ScopeForCovers(c, scopes[1..], ip);
      assert scopes == [scopes[0]] + scopes[1..];
    }
  }

  lemma OneMoreIsValid(c: Codec, cfg: Config, k: nat, r: Reservation)
    requires k < |cfg.scopes| && ValidReservation(c, r, cfg.scopes[k].subnet)
    ensures ValidForApply(c, cfg.(scopes := WithReservation(cfg.scopes, k, r))) <==> ValidForApply(c, cfg)
  {
    var scopes' := WithReservation(cfg.scopes, k, r);
    assert ValidScope(c, scopes'[k]) <==> ValidScope(c, cfg.scopes[k]) by {
      assert forall e :: e in scopes'[k].reservations <==> e in cfg.scopes[k].reservations || e == r;
    }
    assert forall i :: 0 <= i < |scopes'| && i != k ==> scopes'[i] == cfg.scopes[i];
    if ValidForApply(c, cfg) {
      forall s | s in scopes' ensures ValidScope(c, s) {
        assert s == scopes'[k] || s in cfg.scopes;
      }
    }
    if ValidForApply(c, cfg.(scopes := scopes')) {
      forall s | s in cfg.scopes ensures ValidScope(c, s) {
        assert s == cfg.scopes[k] || s in scopes';
        assert scopes'[k] in scopes';
      }
    }
  }

  lemma PlacedIff(c: Codec, cfg: Config, r: Reservation)
    requires forall subnet :: AddrInCidr(c, r.ip, subnet) ==> ValidReservation(c, r, subnet)
    ensures Placed(c, cfg, r).Ok? <==>
            && !DuidTaken(cfg.scopes, r.duid) && !IpTaken(cfg.scopes, r.ip)
            && (exists s :: s in cfg.scopes && AddrInCidr(c, r.ip, s.subnet)) && ValidForApply(c, cfg)
  {
    ScopeForCovers(c, cfg.scopes, r.ip);
    var k := ScopeFor(c, cfg.scopes, r.ip);
    if k.Some? {
      OneMoreIsValid(c, cfg, k.value, r);
    }
  }

  /** A create is accepted exactly when its guards let it through. */
  lemma CreateIsAcceptedIff(c: Codec, cfg: Config, lease: LeaseRequest, iface: Option<string>)
    ensures AddReservation(c, cfg, lease, iface).Ok? <==> TakesLease(c, cfg, lease, iface)
  {
    var cfg1 := if iface.Some? then cfg.(iface := iface.value) else cfg;
    PresentableIff(c, cfg1);
    if Requested(c, lease).Ok? {
      var r := Requested(c, lease).value;
      forall subnet | AddrInCidr(c, r.ip, subnet) ensures ValidReservation(c, r, subnet) {
        RequestedIsValid(c, lease, subnet);
      }
      PlacedIff(c, cfg1, r);
    }
  }

  /** A create that its guards let through and that can be saved is for an address not yet
      reserved under any spelling. */
  ghost predicate NewAddress(c: Codec, cfg: Config, q: Request) {
    q.Create? && q.saved && TakesLease(c, cfg, q.lease, q.iface) ==>
      forall r :: r in AllReservations(cfg.scopes) ==> c.addr(r.ip) != c.addr(Trim(q.lease.ip))
  }

  lemma InsertKeepsAddressesIff(c: Codec, rs: seq<Reservation>, p: nat, r: Reservation)
    requires DistinctAddresses(c, rs) && p <= |rs|
    ensures DistinctAddresses(c, rs[..p] + [r] + rs[p..]) <==> forall e :: e in rs ==> c.addr(e.ip) != c.addr(r.ip)
  {
    var rs' := rs[..p] + [r] + rs[p..];
    assert forall i :: 0 <= i < |rs'| && i != p ==> rs'[i] == rs[if i < p then i else i - 1];
    forall e | e in rs && c.addr(e.ip) == c.addr(r.ip) ensures !DistinctAddresses(c, rs') {
      var i :| 0 <= i < |rs| && rs[i] == e;
      assert rs'[p] == r && rs'[if i < p then i else i + 1] == e;
    }
  }

  lemma {:induction false} KeptKeepsAddresses(c: Codec, rs: seq<Reservation>, id: string)
    requires DistinctAddresses(c, rs)
    ensures DistinctAddresses(c, Kept(rs, id))
  {
    if rs != [] {
      KeptKeepsAddresses(c, rs[1..], id);
      KeptMembers(rs[1..], id);
      forall r | r in rs[1..] ensures c.addr(rs[0].ip) != c.addr(r.ip) {
        var i :| 0 <= i < |rs| - 1 && rs[1..][i] == r;
      }
    }
  }

  lemma CreateKeepsAddressesIff(c: Codec, cfg: Config, lease: LeaseRequest, iface: Option<string>)
    requires DistinctAddresses(c, AllReservations(cfg.scopes)) && AddReservation(c, cfg, lease, iface).Ok?
    ensures DistinctAddresses(c, AllReservations(AddReservation(c, cfg, lease, iface).value.scopes)) <==>
            forall r :: r in AllReservations(cfg.scopes) ==> c.addr(r.ip) != c.addr(Trim(lease.ip))
  {
    var r := Requested(c, lease).value;
    var p := AddedInPlace(cfg.scopes, ScopeFor(c, cfg.scopes, r.ip).value, r);
    InsertKeepsAddressesIff(c, AllReservations(cfg.scopes), p, r);
  }

  lemma RequestKeepsAddressesIff(c: Codec, cfg: Config, q: Request)
    requires DistinctAddresses(c, AllReservations(cfg.scopes))
    ensures DistinctAddresses(c, AllReservations(After(c, cfg, q).0.scopes)) <==> NewAddress(c, cfg, q)
  {
    if q.Create? {
      CreateIsAcceptedIff(c, cfg, q.lease, q.iface);
    }
    if After(c, cfg, q).1.Ok? {
      match q
      case Update(_, _, _) => AcceptedRequestsChangeReservationsSo(c, cfg, q);
      case Create(lease, iface, _) =>
        CreateKeepsAddressesIff(c, cfg, lease, iface);
        NormalizingKeepsReservations(c, AddReservation(c, cfg, lease, iface).value);
      case Delete(id, _, _) =>
        AcceptedRequestsChangeReservationsSo(c, cfg, q);
        KeptKeepsAddresses(c, AllReservations(cfg.scopes), id);
    }
  }

  predicate AlwaysDistinctAddresses(c: Codec, cfg: Config, qs: seq<Request>)
    decreases |qs|
  {
    && DistinctAddresses(c, AllReservations(cfg.scopes))
    && (qs != [] ==> AlwaysDistinctAddresses(c, After(c, cfg, qs[0]).0, qs[1..]))
  }

  ghost predicate AlwaysNewAddresses(c: Codec, cfg: Config, qs: seq<Request>)
    decreases |qs|
  {
    qs != [] ==> NewAddress(c, cfg, qs[0]) && AlwaysNewAddresses(c, After(c, cfg, qs[0]).0, qs[1..])
  }

  /** Throughout a run no address is reserved twice exactly if every create that is accepted is
      for a value not yet reserved, which is more than the comparison of texts makes sure of. */
  lemma {:induction false} AddressesStayDistinctIff(c: Codec, cfg: Config, qs: seq<Request>)
    requires DistinctAddresses(c, AllReservations(cfg.scopes))
    ensures AlwaysDistinctAddresses(c, cfg, qs) <==> AlwaysNewAddresses(c, cfg, qs)
    decreases |qs|
  {
    if qs != [] {
      RequestKeepsAddressesIff(c, cfg, qs[0]);
      if NewAddress(c, cfg, qs[0]) {
        AddressesStayDistinctIff(c, After(c, cfg, qs[0]).0, qs[1..]);
      }
    }
  }

  function OneAddressScope(c: Codec, a: nat): Scope {
    Scope(ShowCidr(c, a, 128), c.showAddr(a), c.showAddr(a), [], 86400, None, [])
  }

  function OneAddressConfig(c: Codec, a: nat, rs: seq<Reservation>): Config {
    Config(true, "lan", [OneAddressScope(c, a).(reservations := rs)])
  }

  /** The request that configures a scope of one address. */
  function OneAddressUpdate(c: Codec, a: nat): Request {
    var addr := Some(c.showAddr(a));
    Update(UpdateRequest(Some(true), Some("lan"), Some(ShowCidr(c, a, 128)), addr, addr, None, None, None), None, true)
  }

  /** What the requests below use of the texts. */
  ghost predicate OneAddressWorks(c: Codec, a: nat) {
    var addr, cidr := c.showAddr(a), ShowCidr(c, a, 128);
    && Trim(cidr) == cidr != "" && ValidCidr(c, cidr) && NormalizeCidr(c, cidr) == Some(cidr)
    && Trim(addr) == addr != "" && c.addr(addr) == Some(a)
    && forall ip :: c.addr(ip) == Some(a) ==> AddrInCidr(c, ip, cidr)
  }

  lemma LawfulOneAddress(c: Codec, a: nat)
    requires Lawful(c) && a < ADDRESSES
    ensures OneAddressWorks(c, a)
  {
    var addr, cidr := c.showAddr(a), ShowCidr(c, a, 128);
    ShownCidrIsRead(c, a, 128);
    assert Solid(addr) && Solid(c.showPrefix(128));
    assert cidr[0] == addr[0] && cidr[|cidr| - 1] == c.showPrefix(128)[|c.showPrefix(128)| - 1];
    TrimFixpoint(cidr);
    TrimFixpoint(addr);
    assert Network(a, 128) == ClearLow(a, 0) == a;
    forall ip | c.addr(ip) == Some(a) ensures AddrInCidr(c, ip, cidr) {
      MembershipIsNetworkEquality(c, ip, cidr);
    }
  }

  lemma OneAddressScopeIsValid(c: Codec, a: nat, rs: seq<Reservation>)
    requires OneAddressWorks(c, a)
    requires forall r :: r in rs ==> ValidReservation(c, r, OneAddressScope(c, a).subnet)
    ensures ValidForApply(c, OneAddressConfig(c, a, rs))
    ensures NormalizedSubnets(c, OneAddressConfig(c, a, rs)) == OneAddressConfig(c, a, rs)
  {
    var s := OneAddressScope(c, a).(reservations := rs);
    assert AddrInCidr(c, c.showAddr(a), s.subnet);
    assert ValidScope(c, s);
    LanIsTrimmed();
    assert NormalizedSubnets(c, Config(true, "lan", [s])).scopes == [s];
  }

  lemma LanIsTrimmed()
    ensures Trim("lan") == "lan"
  {
    TrimFixpoint("lan");
  }

  lemma OneAddressIsConfigured(c: Codec, a: nat)
    requires OneAddressWorks(c, a)
    ensures After(c, EMPTY, OneAddressUpdate(c, a)) == (OneAddressConfig(c, a, []), Ok(()))
  {
    var s, r := OneAddressScope(c, a), OneAddressUpdate(c, a).r;
    var cidr := s.subnet;
    var blank := Scope(cidr, "", "", [], 86400, None, []);
    assert UpdatedScope(blank, r, Some(cidr)) == s;
    assert [blank][0 := s] == [s];
    assert ApplyScopeRequest(c, Config(true, "lan", []), r) == Ok(Config(true, "lan", [s]));
    OneAddressScopeIsValid(c, a, []);
    LanIsTrimmed();
  }

  /** A scope of one address takes a lease for it, under any spelling and DUID that are new. */
  lemma OneAddressTakes(c: Codec, a: nat, rs: seq<Reservation>, lease: LeaseRequest)
    requires OneAddressWorks(c, a) && Requested(c, lease).Ok? && c.addr(Requested(c, lease).value.ip) == Some(a)
    requires forall r :: r in rs ==> ValidReservation(c, r, OneAddressScope(c, a).subnet)
    requires var r := Requested(c, lease).value;
             forall e :: e in rs ==> !EqIgnoreCase(e.duid, r.duid) && !EqIgnoreCase(e.ip, r.ip)
    ensures var s, r := OneAddressScope(c, a), Requested(c, lease).value;
            && ValidReservation(c, r, s.subnet)
            && After(c, OneAddressConfig(c, a, rs), Create(lease, None, true))
            == (OneAddressConfig(c, a, rs + [r]), Ok(()))
  {
    var r, s := Requested(c, lease).value, OneAddressScope(c, a).(reservations := rs);
    var cfg := Config(true, "lan", [s]);
    RequestedIsValid(c, lease, s.subnet);
    OneAddressScopeIsValid(c, a, rs);
    OneAddressScopeIsValid(c, a, rs + [r]);
    OneScope(s);
    var cfg' := cfg.(scopes := WithReservation(cfg.scopes, 0, r));
    assert cfg'.scopes == [s.(reservations := rs + [r])];
    assert ScopeFor(c, cfg.scopes, r.ip) == Some(0);
    assert Placed(c, cfg, r) == Ok(cfg');
    assert AddReservation(c, cfg, lease, None) == Ok(cfg');
  }

  /** Two leases that write one address in two ways are both accepted: from the empty config,
      three requests lead to two reservations of the same address. */
  lemma TwoSpellingsAreBothReserved(c: Codec, first: LeaseRequest, second: LeaseRequest)
    requires Lawful(c) && Requested(c, first).Ok? && Requested(c, second).Ok?
    requires var (r, s) := (Requested(c, first).value, Requested(c, second).value);
             c.addr(r.ip) == c.addr(s.ip) && !EqIgnoreCase(r.ip, s.ip) && !EqIgnoreCase(r.duid, s.duid)
    ensures var (r, s) := (Requested(c, first).value, Requested(c, second).value);
            var qs := [OneAddressUpdate(c, c.addr(r.ip).value), Create(first, None, true), Create(second, None, true)];
            var all := AllReservations(Exec(c, EMPTY, qs).scopes);
            all == [r, s] && !DistinctAddresses(c, all)
  {
    var a := c.addr(Requested(c, first).value.ip).value;
    LawfulOneAddress(c, a);
    BothSpellingsAreTaken(c, a, first, second);
  }

  lemma BothSpellingsAreTaken(c: Codec, a: nat, first: LeaseRequest, second: LeaseRequest)
    requires OneAddressWorks(c, a) && Requested(c, first).Ok? && Requested(c, second).Ok?
    requires var (r, s) := (Requested(c, first).value, Requested(c, second).value);
             c.addr(r.ip) == c.addr(s.ip) == Some(a) && !EqIgnoreCase(r.ip, s.ip) && !EqIgnoreCase(r.duid, s.duid)
    ensures var (r, s) := (Requested(c, first).value, Requested(c, second).value);
            var qs := [OneAddressUpdate(c, a), Create(first, None, true), Create(second, None, true)];
            var all := AllReservations(Exec(c, EMPTY, qs).scopes);
            all == [r, s] && !DistinctAddresses(c, all)
  {
    var r, s := Requested(c, first).value, Requested(c, second).value;
    var q0, q1, q2 := OneAddressUpdate(c, a), Create(first, None, true), Create(second, None, true);
    var cfg := OneAddressConfig(c, a, [r, s]);
    assert After(c, After(c, After(c, EMPTY, q0).0, q1).0, q2).0 == cfg by {
      OneAddressIsConfigured(c, a);
      OneAddressTakes(c, a, [], first);
      OneAddressTakes(c, a, [r], second);
      assert [] + [r] == [r] && [r] + [s] == [r, s];
    }
    ThreeRequests(c, EMPTY, q0, q1, q2);
    OneScope(cfg.scopes[0]);
    assert c.addr([r, s][0].ip) == c.addr([r, s][1].ip);
  }

  function SampleLease(duid: string, ip: string): LeaseRequest {
    LeaseRequest("", Some(duid), None, ip, None, None)
  }

  lemma SampleDuidSplits(last: char)
    requires last in "23"
    ensures Split("00:01:0" + [last], ':') == ["00", "01", "0" + [last]]
  {
    var tail := "0" + [last];
    assert "00:01:0" + [last] == "00" + ([':'] + ("01" + ([':'] + tail)));
    SplitFirst("00", "01" + ([':'] + tail), ':');
    SplitFirst("01", tail, ':');
    SplitNone(tail, ':');
  }

  lemma SampleDuidIsTrimmed(last: char)
    requires last in "23"
    ensures var duid := "00:01:0" + [last]; Trim(duid) == duid == Lower(duid)
  {
    TrimFixpoint("00:01:0" + [last]);
  }

  lemma SampleDuid(last: char)
    requires last in "23"
    ensures var duid := "00:01:0" + [last]; Trim(duid) == duid == Lower(duid) && ValidDuid(duid)
  {
    SampleDuidIsTrimmed(last);
    SampleDuidSplits(last);
    assert HexPair("00") && HexPair("01") && HexPair("0" + [last]);
  }

  lemma SampleIsRequested(last: char, ip: string)
    requires last in "23" && ip in {"1", "01"}
    ensures var duid := "00:01:0" + [last];
            Requested(DECIMAL, SampleLease(duid, ip)) == Ok(Reservation("", duid, ip, [], []))
  {
    SampleDuid(last);
    TrimFixpoint(ip);
    DecimalReadsTwoSpellings();
  }

  /** An input for it: the address 1, which the sample codec also reads from `01`. */
  lemma OneAddressReservedTwice()
    ensures var first, second := SampleLease("00:01:02", "1"), SampleLease("00:01:03", "01");
            var qs := [OneAddressUpdate(DECIMAL, 1), Create(first, None, true), Create(second, None, true)];
            var all := AllReservations(Exec(DECIMAL, EMPTY, qs).scopes);
            && |all| == 2 && all[0].ip == "1" && all[1].ip == "01"
            && !DistinctAddresses(DECIMAL, all)
  {
    assert "00:01:0" + ['2'] == "00:01:02" && "00:01:0" + ['3'] == "00:01:03";
    SampleIsRequested('2', "1");
    SampleIsRequested('3', "01");
    DecimalIsLawful();
    DecimalReadsTwoSpellings();
    assert Lower("00:01:02")[7] != Lower("00:01:03")[7];
    TwoSpellingsAreBothReserved(DECIMAL, SampleLease("00:01:02", "1"), SampleLease("00:01:03", "01"));
  }

  lemma ThreeRequests(c: Codec, cfg: Config, p: Request, q: Request, r: Request)
    ensures Exec(c, cfg, [p, q, r]) == After(c, After(c, After(c, cfg, p).0, q).0, r).0
  {
    assert [p, q, r][1..] == [q, r] && [q, r][1..] == [r] && [r][1..] == [];
    var cfg2 := After(c, After(c, cfg, p).0, q).0;
    assert Exec(c, cfg2, [r]) == After(c, cfg2, r).0;
    assert Exec(c, After(c, cfg, p).0, [q, r]) == Exec(c, cfg2, [r]);
  }

  lemma OneScope(s: Scope)
    ensures AllReservations([s]) == s.reservations
  {
    assert [s][1..] == [];
    assert AllReservations([s][1..]) == [];
  }

  lemma RequestedIsValid(c: Codec, lease: LeaseRequest, subnet: string)
    requires Requested(c, lease).Ok? && AddrInCidr(c, Requested(c, lease).value.ip, subnet)
    ensures ValidReservation(c, Requested(c, lease).value, subnet)
  {
  }

  // ---------------------------------------------------------------------------
  // The service
  // ---------------------------------------------------------------------------

  class Dhcp6Service {
    const codec: Codec
    var saved: Config

    constructor (c: Codec, cfg: Config)
      ensures codec == c && saved == cfg
    {
      codec, saved := c, cfg;
    }

    method NormalizeSubnets(cfg: Config) returns (r: Config)
      ensures r == NormalizedSubnets(codec, cfg)
    {
      var scopes := cfg.scopes;
      for i := 0 to |scopes|
        invariant |scopes| == |cfg.scopes|
        invariant forall j :: 0 <= j < i ==> scopes[j] == NormalizedScope(codec, cfg.scopes[j])
        invariant forall j :: i <= j < |scopes| ==> scopes[j] == cfg.scopes[j]
      {
        var normalized := NormalizeCidr(codec, scopes[i].subnet);
        if normalized.Some? {
          scopes := scopes[i := scopes[i].(subnet := normalized.value)];
        }
      }
      r := cfg.(scopes := scopes);
      assert r.scopes == NormalizedSubnets(codec, cfg).scopes;
    }

    method UpdateConfig(req: UpdateRequest, iface: Option<string>, canSave: bool) returns (r: Result<(), Error>)
      modifies this
      ensures (saved, r) == After(codec, old(saved), Update(req, iface, canSave))
    {
      var cfg := saved;
      cfg := cfg.(enabled := req.enabled.GetOr(cfg.enabled));
      if iface.Some? {
        cfg := cfg.(iface := iface.value);
      } else if req.iface.Some? {
        cfg := cfg.(iface := Trim(req.iface.value));
      }
      var edited := EditFirstScope(cfg, req);
      if edited.Err? {
        return Err(edited.error);
      }
      if !ValidForApply(codec, edited.value) {
        return Err(Invalid);
      }
      cfg := NormalizeSubnets(edited.value);
      if !canSave {
        return Err(Storage);
      }
      saved := cfg;
      return Ok(());
    }

    method EditFirstScope(current: Config, req: UpdateRequest) returns (r: Result<Config, Error>)
      ensures r == ApplyScopeRequest(codec, current, req)
    {
      var cfg := current;
      var requested := None;
      if Given(req.subnet) {
        requested := NormalizeCidr(codec, Trim(req.subnet.value));
        if requested.None? {
          return Err(Invalid);
        }
      }
      if cfg.scopes == [] {
        if !cfg.enabled && !HasScopeValues(req) {
          return Ok(cfg);
        }
        var subnet := "fd00::/64";
        if requested.Some? {
          subnet := requested.value;
        } else if Given(req.rangeStart) {
          subnet := NormalizeCidr(codec, req.rangeStart.value).GetOr("fd00::/64");
        }
        cfg := cfg.(scopes := [Scope(subnet, "", "", [], 86400, None, [])]);
      }
      var scope := cfg.scopes[0];
      if requested.Some? {
        scope := scope.(subnet := requested.value);
      }
      if req.rangeStart.Some? {
        scope := scope.(poolStart := Trim(req.rangeStart.value));
      }
      if req.rangeEnd.Some? {
        scope := scope.(poolEnd := Trim(req.rangeEnd.value));
      }
      if req.dns.Some? {
        scope := scope.(dns := TrimmedNonEmpty(req.dns.value));
      }
      if req.leaseTime.Some? {
        scope := scope.(leaseSeconds := req.leaseTime.value);
      }
      if req.domain.Some? {
        var domain := Trim(req.domain.value);
        scope := scope.(domain := if domain == "" then None else Some(domain));
      }
      assert scope == UpdatedScope(cfg.scopes[0], req, requested);
      return Ok(cfg.(scopes := cfg.scopes[0 := scope]));
    }

    method CreateStaticLease(lease: LeaseRequest, iface: Option<string>, canSave: bool) returns (r: Result<(), Error>)
      modifies this
      ensures (saved, r) == After(codec, old(saved), Create(lease, iface, canSave))
    {
      var added := AddLease(saved, lease, iface);
      if added.Err? {
        return Err(added.error);
      }
      var cfg := NormalizeSubnets(added.value);
      if !canSave {
        return Err(Storage);
      }
      saved := cfg;
      return Ok(());
    }

    method AddLease(current: Config, lease: LeaseRequest, iface: Option<string>) returns (r: Result<Config, Error>)
      ensures r == AddReservation(codec, current, lease, iface)
    {
      var cfg := current;
      if iface.Some? && cfg.iface != iface.value {
        if cfg.iface == "" {
          cfg := cfg.(iface := iface.value);
        } else {
          return Err(Invalid);
        }
      }
      var reservation := Requested(codec, lease);
      if reservation.Err? {
        return Err(reservation.error);
      }
      r := Place(cfg, reservation.value);
      assert cfg == if iface.Some? then current.(iface := iface.value) else current;
    }

    method Place(cfg: Config, reservation: Reservation) returns (r: Result<Config, Error>)
      ensures r == Placed(codec, cfg, reservation)
    {
      if cfg.scopes == [] || DuidTaken(cfg.scopes, reservation.duid) || IpTaken(cfg.scopes, reservation.ip) {
        return Err(Invalid);
      }
      var k := FindScope(cfg.scopes, reservation.ip);
      if k.None? {
        return Err(Invalid);
      }
      var placed := cfg.(scopes := WithReservation(cfg.scopes, k.value, reservation));
      if !ValidForApply(codec, placed) {
        return Err(Invalid);
      }
      return Ok(placed);
    }

    method FindScope(scopes: seq<Scope>, ip: string) returns (p: Option<nat>)
      ensures p == ScopeFor(codec, scopes, ip)
    {
      var k := 0;
      assert scopes[0..] == scopes;
      while k < |scopes|
        invariant k <= |scopes|
        invariant Shifted(ScopeFor(codec, scopes[k..], ip), k) == ScopeFor(codec, scopes, ip)
      {
        assert scopes[k..][1..] == scopes[k + 1..];
        if AddrInCidr(codec, ip, scopes[k].subnet) {
          return Some(k);
        }
        k := k + 1;
      }
      return None;
    }

    method DeleteStaticLease(id: string, iface: Option<string>, canSave: bool) returns (r: Result<(), Error>)
      modifies this
      ensures (saved, r) == After(codec, old(saved), Delete(id, iface, canSave))
    {
      if iface.Some? && saved.iface != iface.value {
        return Err(Invalid);
      }
      var cfg := saved;
      cfg := cfg.(scopes := WithoutId(cfg.scopes, id));
      if |AllReservations(cfg.scopes)| == |AllReservations(saved.scopes)| {
        return Err(Invalid);
      }
      if iface.Some? && !ValidForApply(codec, cfg) {
        return Err(Invalid);
      }
      cfg := NormalizeSubnets(cfg);
      if !canSave {
        return Err(Storage);
      }
      saved := cfg;
      return Ok(());
    }
  }
}
