/**
 Community pools of the mobile app: the admin set and threshold read from the chain,
 the client-side multisig check, and the withdrawals it lets through.

 `PoolStore` is the cache and its operations; `Step` and `After` are every history
 of them.
 */
module PoolQuorum {
  import opened Outcomes

  datatype Approval = Approval(address: string, signature: string, signedAt: int)
  datatype WithdrawalId = WithdrawalId(time: int, number: nat)

  datatype Withdrawal = Withdrawal(
    id: WithdrawalId,
    recipient: string,
    amount: string,
    approvals: seq<Approval>,
    createdAt: int)

  datatype Source = Unknown | Chain

  datatype Pool = Pool(
    id: string,
    name: string,
    description: string,
    token: string,
    balance: string,
    admins: seq<string>,
    threshold: int,
    withdrawals: seq<Withdrawal>,
    source: Source)

  /** Display metadata of a known pool. */
  datatype CatalogEntry = CatalogEntry(name: string, description: string, token: string, balance: string)
  type Catalog = map<string, CatalogEntry>
  type Pools = map<string, Pool>

  /** A JavaScript number as far as it matters to a threshold. */
  datatype Number = NaN | PositiveInfinity | NegativeInfinity | Finite(value: real)

  datatype Snapshot = Snapshot(
    admins: seq<string>,
    threshold: Number,
    balance: Option<string>,
    token: Option<string>)

  datatype Verdict =
    | Valid
    | NotLoaded
    | NoThreshold
    | NotAdmin(address: string)
    | Repeated(signer: string)
    | NotSigned(signer: string)
    | TooFew(needed: int, have: nat)

  // ----- Addresses -----------------------------------------------------------

  /** The characters `trim` takes off. */
  predicate IsSpace(c: char) {
    || 9 as char <= c <= 13 as char || c == ' ' || c == 0xA0 as char || c == 0x1680 as char
    || 0x2000 as char <= c <= 0x200A as char || c == 0x2028 as char || c == 0x2029 as char
    || c == 0x202F as char || c == 0x205F as char || c == 0x3000 as char || c == 0xFEFF as char
  }

  function TrimStart(s: string): string {
    if s != [] && IsSpace(s[0]) then TrimStart(s[1..]) else s
  }

  function TrimEnd(s: string): string {
    if s != [] && IsSpace(s[|s| - 1]) then TrimEnd(s[..|s| - 1]) else s
  }

  function Trim(s: string): string {
    TrimEnd(TrimStart(s))
  }

  function Up(c: char): char {
    if 'a' <= c <= 'z' then (c as int - 'a' as int + 'A' as int) as char else c
  }

  function UpperCase(s: string): string {
    if s == [] then [] else [Up(s[0])] + UpperCase(s[1..])
  }

  lemma {:induction false} UpperCaseAt(s: string)
    ensures |UpperCase(s)| == |s| && forall i :: 0 <= i < |s| ==> UpperCase(s)[i] == Up(s[i])
  {
    if s != [] {
      UpperCaseAt(s[1..]);
    }
  }

  function NormalizeAddress(address: string): string {
    UpperCase(Trim(address))
  }

  predicate IsKeyCharacter(c: char) {
    'A' <= c <= 'Z' || '2' <= c <= '7'
  }

  /** `G` and 55 base-32 characters. */
  predicate IsKey(s: string) {
    |s| == 56 && s[0] == 'G' && forall i :: 1 <= i < 56 ==> IsKeyCharacter(s[i])
  }

  predicate IsValidStellarAddress(address: string) {
    IsKey(Trim(address))
  }

  predicate IsTrimmed(s: string) {
    s == [] || (!IsSpace(s[0]) && !IsSpace(s[|s| - 1]))
  }

  lemma {:induction false} TrimStartTrims(s: string)
    ensures TrimStart(s) == [] || !IsSpace(TrimStart(s)[0])
  {
    if s != [] && IsSpace(s[0]) {
      TrimStartTrims(s[1..]);
    }
  }

  lemma {:induction false} TrimEndTrims(s: string)
    requires s == [] || !IsSpace(s[0])
    ensures IsTrimmed(TrimEnd(s))
  {
    if s != [] && IsSpace(s[|s| - 1]) {
      TrimEndTrims(s[..|s| - 1]);
    }
  }

  lemma NormalizedIsTrimmed(address: string)
    ensures IsTrimmed(NormalizeAddress(address)) && Trim(NormalizeAddress(address)) == NormalizeAddress(address)
  {
    TrimStartTrims(address);
    TrimEndTrims(TrimStart(address));
    var t := Trim(address);
    UpperCaseAt(t);
    assert forall i :: 0 <= i < |t| ==> IsSpace(Up(t[i])) == IsSpace(t[i]);
  }

  /** Normalising is idempotent on valid addresses, and a normalised valid address is a bare key. */
  lemma ValidIsNormal(address: string)
    requires IsValidStellarAddress(NormalizeAddress(address))
    ensures IsKey(NormalizeAddress(address))
    ensures NormalizeAddress(NormalizeAddress(address)) == NormalizeAddress(address)
  {
    NormalizedIsTrimmed(address);
    var a := NormalizeAddress(address);
    UpperCaseAt(a);
    assert forall i :: 0 <= i < |a| ==> Up(a[i]) == a[i];
    assert UpperCase(a) == a;
  }

  /** Base 32. */
  const KEY_CHARACTERS := "ABCDEFGHIJKLMNOPQRSTUVWXYZ234567"

  lemma KeyCharacterAt(k: nat)
    requires k < 32
    ensures KEY_CHARACTERS[k] == ((if k < 26 then 'A' as int + k else '2' as int + k - 26) as char)
  {
  }

  lemma KeyCharactersExactly(c: char)
    ensures |KEY_CHARACTERS| == 32
    ensures IsKeyCharacter(c) <==> exists k :: 0 <= k < 32 && KEY_CHARACTERS[k] == c
  {
    if 'A' <= c <= 'Z' {
      KeyCharacterAt(c as int - 'A' as int);
    } else if '2' <= c <= '7' {
      KeyCharacterAt(c as int - '2' as int + 26);
    }
    forall k | 0 <= k < 32
      ensures IsKeyCharacter(KEY_CHARACTERS[k])
    {
      KeyCharacterAt(k);
    }
  }

  lemma {:induction false} TrimStartKeepsRest(s: string) returns (i: nat)
    ensures i <= |s| && TrimStart(s) == s[i..] && forall k :: 0 <= k < i ==> IsSpace(s[k])
  {
    if s != [] && IsSpace(s[0]) {
      i := TrimStartKeepsRest(s[1..]);
      i := i + 1;
      assert forall k :: 0 < k < i ==> s[k] == s[1..][k - 1];
    } else {
      i := 0;
    }
  }

  lemma {:induction false} TrimEndKeepsRest(s: string) returns (j: nat)
    ensures j <= |s| && TrimEnd(s) == s[..j] && forall k :: j <= k < |s| ==> IsSpace(s[k])
  {
    if s != [] && IsSpace(s[|s| - 1]) {
      j := TrimEndKeepsRest(s[..|s| - 1]);
      assert s[..|s| - 1][..j] == s[..j];
    } else {
      j := |s|;
      assert s[..j] == s;
    }
  }

  /** What is trimmed is space at the two ends, all of it. */
  lemma TrimExactly(s: string) returns (i: nat, j: nat)
    ensures i <= j <= |s| && Trim(s) == s[i..j]
    ensures forall k :: 0 <= k < i || j <= k < |s| ==> IsSpace(s[k])
    ensures i < j ==> !IsSpace(s[i]) && !IsSpace(s[j - 1])
  {
    i := TrimStartKeepsRest(s);
    var rest := s[i..];
    var n := TrimEndKeepsRest(rest);
    j := i + n;
    assert rest[..n] == s[i..j];
    forall k | j <= k < |s|
      ensures IsSpace(s[k])
    {
      assert rest[k - i] == s[k];
    }
    TrimStartTrims(s);
    TrimEndTrims(rest);
  }

  /** A normalised address is the trimmed one with its letters in upper case. */
  lemma NormalizedExactly(address: string) returns (i: nat, j: nat)
    ensures i <= j <= |address|
    ensures forall k :: 0 <= k < i || j <= k < |address| ==> IsSpace(address[k])
    ensures i < j ==> !IsSpace(address[i]) && !IsSpace(address[j - 1])
    ensures |NormalizeAddress(address)| == j - i
    ensures forall k :: 0 <= k < j - i ==>
              NormalizeAddress(address)[k] == if 'a' <= address[i + k] <= 'z' then (address[i + k] as int - 32) as char
                                              else address[i + k]
  {
    i, j := TrimExactly(address);
    UpperCaseAt(Trim(address));
  }

  /** A valid address is `G` and 55 characters of base 32, with any space around it. */
  lemma ValidExactly(address: string) returns (i: nat, j: nat)
    ensures i <= j <= |address|
    ensures forall k :: 0 <= k < i || j <= k < |address| ==> IsSpace(address[k])
    ensures i < j ==> !IsSpace(address[i]) && !IsSpace(address[j - 1])
    ensures IsValidStellarAddress(address) <==>
            && j - i == 56 && address[i] == 'G'
            && forall k :: i < k < j ==> exists n :: 0 <= n < 32 && KEY_CHARACTERS[n] == address[k]
  {
    i, j := TrimExactly(address);
    var t := Trim(address);
    hide IsKeyCharacter, Trim;
    forall k | i < k < j
      ensures IsKeyCharacter(t[k - i]) <==> exists n :: 0 <= n < 32 && KEY_CHARACTERS[n] == address[k]
    {
      KeyCharactersExactly(address[k]);
    }
    if j - i == 56 {
      assert forall k :: 1 <= k < 56 ==> t[k] == address[i + k];
      assert forall k :: i < k < j ==> t[k - i] == address[k];
    }
  }

  // ----- Governance from the chain -------------------------------------------

  /** The valid normalised addresses of a snapshot, each at its first occurrence. */
  function ChainAdmins(raw: seq<string>): seq<string> {
    if raw == [] then []
    else
      var before := ChainAdmins(raw[..|raw| - 1]);
      var admin := NormalizeAddress(raw[|raw| - 1]);
      if IsValidStellarAddress(admin) && admin !in before then before + [admin] else before
  }

  predicate Distinct(addresses: seq<string>) {
    forall i, j :: 0 <= i < j < |addresses| ==> addresses[i] != addresses[j]
  }

  predicate IsAdminName(address: string) {
    IsKey(address) && NormalizeAddress(address) == address
  }

  lemma {:induction false} ChainAdminsAreGood(raw: seq<string>)
    ensures Distinct(ChainAdmins(raw))
    ensures forall i :: 0 <= i < |ChainAdmins(raw)| ==> IsAdminName(ChainAdmins(raw)[i])
  {
    if raw != [] {
      ChainAdminsAreGood(raw[..|raw| - 1]);
      var admin := NormalizeAddress(raw[|raw| - 1]);
      if IsValidStellarAddress(admin) {
        ValidIsNormal(raw[|raw| - 1]);
      }
    }
  }

  predicate Names(raw: seq<string>, admin: string) {
    exists i :: 0 <= i < |raw| && NormalizeAddress(raw[i]) == admin
  }

  lemma NamesOneMore(before: seq<string>, last: string, admin: string)
    ensures Names(before + [last], admin) <==> Names(before, admin) || NormalizeAddress(last) == admin
  {
    var raw := before + [last];
    assert raw[|before|] == last;
    assert forall i :: 0 <= i < |before| ==> raw[i] == before[i];
  }

  /** Nobody is dropped but the invalid and nobody is made up. */
  lemma {:induction false} ChainAdminsAreTheSnapshots(raw: seq<string>, admin: string)
    ensures admin in ChainAdmins(raw) <==> IsValidStellarAddress(admin) && Names(raw, admin)
  {
    if raw != [] {
      var before, last := raw[..|raw| - 1], raw[|raw| - 1];
      ChainAdminsAreTheSnapshots(before, admin);
      NamesOneMore(before, last, admin);
      assert raw == before + [last];
    }
  }

  /** The addresses of a snapshot that name an admin. */
  ghost function ValidAdmins(raw: seq<string>): set<string> {
    set i | 0 <= i < |raw| && IsValidStellarAddress(NormalizeAddress(raw[i])) :: NormalizeAddress(raw[i])
  }

  lemma {:induction false} DistinctCount(addresses: seq<string>)
    requires Distinct(addresses)
    ensures |set a | a in addresses| == |addresses|
  {
    if addresses != [] {
      var before, last := addresses[..|addresses| - 1], addresses[|addresses| - 1];
      DistinctCount(before);
      assert (set a | a in addresses) == (set a | a in before) + {last};
      assert last !in before;
    }
  }

  lemma ChainAdminsCount(raw: seq<string>)
    ensures |ChainAdmins(raw)| == |ValidAdmins(raw)|
    ensures forall a :: a in ChainAdmins(raw) <==> a in ValidAdmins(raw)
  {
    forall a
      ensures a in ChainAdmins(raw) <==> a in ValidAdmins(raw)
    {
      ChainAdminsAreTheSnapshots(raw, a);
    }
    ChainAdminsAreGood(raw);
    DistinctCount(ChainAdmins(raw));
    assert (set a | a in ChainAdmins(raw)) == ValidAdmins(raw);
  }

  /** The admins a snapshot names, each once, in the order in which they are first named. */
  ghost predicate ListsInOrder(admins: seq<string>, raw: seq<string>) {
    && |admins| == |ValidAdmins(raw)|
    && forall n :: 0 <= n <= |raw| ==> ListsFirst(admins, ValidAdmins(raw[..n]))
  }

  ghost predicate ListsFirst(admins: seq<string>, names: set<string>) {
    |names| <= |admins| && forall a :: a in admins[..|names|] <==> a in names
  }

  lemma {:induction false} ChainAdminsOfPrefix(raw: seq<string>, n: nat)
    requires n <= |raw|
    ensures ChainAdmins(raw[..n]) <= ChainAdmins(raw)
    decreases |raw|
  {
    if n == |raw| {
      assert raw[..n] == raw;
    } else {
      ChainAdminsOfPrefix(raw[..|raw| - 1], n);
      assert raw[..|raw| - 1][..n] == raw[..n];
    }
  }

  lemma ChainAdminsInOrder(raw: seq<string>)
    ensures ListsInOrder(ChainAdmins(raw), raw)
  {
    ChainAdminsCount(raw);
    forall n | 0 <= n <= |raw|
      ensures ListsFirst(ChainAdmins(raw), ValidAdmins(raw[..n]))
    {
      ChainAdminsCount(raw[..n]);
      ChainAdminsOfPrefix(raw, n);
    }
  }

  /** Math.floor; only a finite number has one that is an integer. */
  function Floor(n: Number): Option<int> {
    if n.Finite? then Some(n.value.Floor) else None
  }

  predicate Acceptable(snapshot: Snapshot) {
    var threshold := Floor(snapshot.threshold);
    |ChainAdmins(snapshot.admins)| > 0 && threshold.Some? && 1 <= threshold.value <= |ChainAdmins(snapshot.admins)|
  }

  function NewPool(catalog: Catalog, id: string): Pool {
    if id in catalog then
      var entry := catalog[id];
      Pool(id, entry.name, entry.description, entry.token, entry.balance, [], 0, [], Unknown)
    else
      Pool(id, id, "Community managed pool", "XLM", "0 XLM", [], 0, [], Unknown)
  }

  function PoolOf(catalog: Catalog, pools: Pools, id: string): Pool {
    if id in pools then pools[id] else NewPool(catalog, id)
  }

  function Governed(pool: Pool, snapshot: Snapshot): Pool
    requires Acceptable(snapshot)
  {
    pool.(admins := ChainAdmins(snapshot.admins),
          threshold := Floor(snapshot.threshold).value,
          balance := if snapshot.balance.Some? then snapshot.balance.value else pool.balance,
          token := if snapshot.token.Some? then snapshot.token.value else pool.token,
          source := Chain)
  }

  /** The record of a pool that nobody has looked up yet. */
  ghost predicate IsNewPool(catalog: Catalog, id: string, pool: Pool) {
    && pool.id == id && pool.admins == [] && pool.threshold == 0 && pool.withdrawals == [] && pool.source == Unknown
    && (id in catalog ==>
          && pool.name == catalog[id].name && pool.description == catalog[id].description
          && pool.token == catalog[id].token && pool.balance == catalog[id].balance)
    && (id !in catalog ==>
          && pool.name == id && pool.description == "Community managed pool"
          && pool.token == "XLM" && pool.balance == "0 XLM")
  }

  /** The record under `id`, present or new. */
  ghost predicate IsRecord(catalog: Catalog, pools: Pools, id: string, pool: Pool) {
    if id in pools then pool == pools[id] else IsNewPool(catalog, id, pool)
  }

  /** The snapshot names an admin, and its threshold is a number they can meet. */
  ghost predicate CanGovern(snapshot: Snapshot) {
    && snapshot.threshold.Finite?
    && 1.0 <= snapshot.threshold.value < (|ValidAdmins(snapshot.admins)| + 1) as real
  }

  /** Admins and threshold are those of the snapshot. */
  ghost predicate HasGovernance(pool: Pool, snapshot: Snapshot) {
    && ListsInOrder(pool.admins, snapshot.admins)
    && snapshot.threshold.Finite?
    && pool.threshold as real <= snapshot.threshold.value < (pool.threshold + 1) as real
    && pool.source == Chain
  }

  /** What a snapshot makes of a record: its governance, its balance and token if given; the rest is kept. */
  ghost predicate IsGoverned(was: Pool, pool: Pool, snapshot: Snapshot) {
    && HasGovernance(pool, snapshot)
    && pool.balance == (if snapshot.balance.Some? then snapshot.balance.value else was.balance)
    && pool.token == (if snapshot.token.Some? then snapshot.token.value else was.token)
    && pool.id == was.id && pool.name == was.name && pool.description == was.description
    && pool.withdrawals == was.withdrawals
  }

  lemma AcceptableExactly(snapshot: Snapshot)
    ensures Acceptable(snapshot) <==> CanGovern(snapshot)
  {
    ChainAdminsCount(snapshot.admins);
  }

  lemma GovernedExactly(pool: Pool, snapshot: Snapshot)
    requires Acceptable(snapshot)
    ensures IsGoverned(pool, Governed(pool, snapshot), snapshot)
  {
    ChainAdminsInOrder(snapshot.admins);
  }

  // ----- The multisig check --------------------------------------------------

  /** The signers of the first `n` approvals. */
  function SignersBefore(approvals: seq<Approval>, n: nat): set<string>
    requires n <= |approvals|
  {
    if n == 0 then {} else SignersBefore(approvals, n - 1) + {NormalizeAddress(approvals[n - 1].address)}
  }

  /** Why approval `i` is refused, given those before it. */
  function Fault(pool: Pool, approvals: seq<Approval>, i: nat): Option<Verdict>
    requires i < |approvals|
  {
    var signer := NormalizeAddress(approvals[i].address);
    if !IsValidStellarAddress(signer) || signer !in pool.admins then Some(NotAdmin(approvals[i].address))
    else if signer in SignersBefore(approvals, i) then Some(Repeated(signer))
    else if approvals[i].signature == "" then Some(NotSigned(signer))
    else None
  }

  function Faults(pool: Pool, approvals: seq<Approval>): seq<Option<Verdict>> {
    seq(|approvals|, i requires 0 <= i < |approvals| => Fault(pool, approvals, i))
  }

  /** The first approval at fault decides; then the count. */
  function Judged(faults: seq<Option<Verdict>>, threshold: int, from: nat): Verdict
    requires from <= |faults|
    decreases |faults| - from
  {
    if from == |faults| then
      if |faults| < threshold then TooFew(threshold, |faults|) else Valid
    else if faults[from].Some? then faults[from].value
    else Judged(faults, threshold, from + 1)
  }

  function VerdictOf(pool: Pool, approvals: seq<Approval>): Verdict {
    if pool.source != Chain then NotLoaded
    else if pool.threshold < 1 then NoThreshold
    else Judged(Faults(pool, approvals), pool.threshold, 0)
  }

  /** Enough signed approvals, each from another current admin of a chain-sourced pool. */
  predicate HasQuorum(pool: Pool, approvals: seq<Approval>) {
    && pool.source == Chain
    && 1 <= pool.threshold <= |approvals|
    && (forall i :: 0 <= i < |approvals| ==> IsAdminApproval(pool, approvals[i]))
    && DistinctSigners(approvals)
  }

  predicate IsAdminApproval(pool: Pool, approval: Approval) {
    var signer := NormalizeAddress(approval.address);
    IsValidStellarAddress(signer) && signer in pool.admins && approval.signature != ""
  }

  lemma {:induction false} JudgedValidExactly(faults: seq<Option<Verdict>>, threshold: int, from: nat)
    requires from <= |faults|
    requires forall i :: 0 <= i < |faults| ==> faults[i] != Some(Valid)
    ensures Judged(faults, threshold, from) == Valid <==>
            threshold <= |faults| && forall i :: from <= i < |faults| ==> faults[i].None?
    decreases |faults| - from
  {
    if from < |faults| {
      JudgedValidExactly(faults, threshold, from + 1);
    }
  }

  predicate SignedBy(approvals: seq<Approval>, j: nat, signer: string)
    requires j < |approvals|
  {
    NormalizeAddress(approvals[j].address) == signer
  }

  lemma {:induction false} SignedBefore(approvals: seq<Approval>, n: nat, signer: string)
    requires n <= |approvals|
    ensures signer in SignersBefore(approvals, n) <==> exists j :: 0 <= j < n && SignedBy(approvals, j, signer)
  {
    if n > 0 {
      SignedBefore(approvals, n - 1, signer);
      assert SignedBy(approvals, n - 1, signer) <==> NormalizeAddress(approvals[n - 1].address) == signer;
    }
  }

  predicate DistinctSigners(approvals: seq<Approval>) {
    forall i, j :: 0 <= i < j < |approvals| ==>
      NormalizeAddress(approvals[i].address) != NormalizeAddress(approvals[j].address)
  }

  predicate FirstBySigner(approvals: seq<Approval>, i: nat)
    requires i < |approvals|
  {
    forall j :: 0 <= j < i ==> NormalizeAddress(approvals[j].address) != NormalizeAddress(approvals[i].address)
  }

  lemma FaultlessExactly(pool: Pool, approvals: seq<Approval>, i: nat)
    requires i < |approvals|
    ensures Fault(pool, approvals, i) != Some(Valid)
    ensures Fault(pool, approvals, i).None? <==> IsAdminApproval(pool, approvals[i]) && FirstBySigner(approvals, i)
  {
    var signer := NormalizeAddress(approvals[i].address);
    SignedBefore(approvals, i, signer);
    assert forall j :: 0 <= j < i ==>
      SignedBy(approvals, j, signer) == (NormalizeAddress(approvals[j].address) == signer);
  }

  lemma DistinctMeansEachFirst(approvals: seq<Approval>)
    ensures DistinctSigners(approvals) <==> forall i :: 0 <= i < |approvals| ==> FirstBySigner(approvals, i)
  {
    if forall i :: 0 <= i < |approvals| ==> FirstBySigner(approvals, i) {
      forall i, j | 0 <= i < j < |approvals|
        ensures NormalizeAddress(approvals[i].address) != NormalizeAddress(approvals[j].address)
      {
        assert FirstBySigner(approvals, j);
      }
    }
  }

  /** The check accepts exactly the quorums. */
  lemma VerifyAcceptsExactlyQuorums(pool: Pool, approvals: seq<Approval>)
    ensures VerdictOf(pool, approvals) == Valid <==> HasQuorum(pool, approvals)
  {
    var faults := Faults(pool, approvals);
    forall i | 0 <= i < |approvals|
      ensures faults[i] != Some(Valid)
      ensures faults[i].None? <==> IsAdminApproval(pool, approvals[i]) && FirstBySigner(approvals, i)
    {
      FaultlessExactly(pool, approvals, i);
    }
    JudgedValidExactly(faults, pool.threshold, 0);
    DistinctMeansEachFirst(approvals);
  }

  function Signers(approvals: seq<Approval>): (signers: set<string>) {
    set i | 0 <= i < |approvals| :: NormalizeAddress(approvals[i].address)
  }

  lemma {:induction false} SignersCount(approvals: seq<Approval>)
    requires DistinctSigners(approvals)
    ensures |Signers(approvals)| == |approvals|
  {
    if approvals != [] {
      var before, last := approvals[..|approvals| - 1], approvals[|approvals| - 1];
      SignersCount(before);
      assert forall i :: 0 <= i < |before| ==> before[i] == approvals[i];
      assert Signers(approvals) == Signers(before) + {NormalizeAddress(last.address)};
      forall i | 0 <= i < |before|
        ensures NormalizeAddress(before[i].address) != NormalizeAddress(last.address)
      {
      }
    }
  }

  /** A quorum is a set of admins of at least the size of the threshold. */
  lemma QuorumCountsAdmins(pool: Pool, approvals: seq<Approval>)
    requires HasQuorum(pool, approvals)
    ensures |Signers(approvals)| >= pool.threshold
    ensures forall signer :: signer in Signers(approvals) ==> signer in pool.admins
  {
    SignersCount(approvals);
  }

  /** Approval `i` is the first at fault, and `verdict` says what is wrong with it. */
  ghost predicate Refuses(pool: Pool, approvals: seq<Approval>, i: nat, verdict: Verdict)
    requires i < |approvals|
  {
    var signer := NormalizeAddress(approvals[i].address);
    && (forall j :: 0 <= j < i ==> IsAdminApproval(pool, approvals[j]) && FirstBySigner(approvals, j))
    && if !IsValidStellarAddress(signer) || signer !in pool.admins then verdict == NotAdmin(approvals[i].address)
       else if !FirstBySigner(approvals, i) then verdict == Repeated(signer)
       else approvals[i].signature == "" && verdict == NotSigned(signer)
  }

  /** The first approval at fault decides; without one, their number. */
  ghost predicate IsJudgement(pool: Pool, approvals: seq<Approval>, verdict: Verdict) {
    || (exists i :: 0 <= i < |approvals| && Refuses(pool, approvals, i, verdict))
    || ((forall j :: 0 <= j < |approvals| ==> IsAdminApproval(pool, approvals[j]) && FirstBySigner(approvals, j))
        && verdict == if |approvals| < pool.threshold then TooFew(pool.threshold, |approvals|) else Valid)
  }

  lemma RefusedAt(pool: Pool, approvals: seq<Approval>, i: nat)
    requires i < |approvals| && Fault(pool, approvals, i).Some?
    requires forall j :: 0 <= j < i ==> IsAdminApproval(pool, approvals[j]) && FirstBySigner(approvals, j)
    ensures Refuses(pool, approvals, i, Fault(pool, approvals, i).value)
  {
    hide IsAdminApproval, FirstBySigner;
    RepeatedExactly(approvals, i);
  }

  lemma {:induction false} JudgedExactly(pool: Pool, approvals: seq<Approval>, from: nat)
    requires from <= |approvals|
    requires forall j :: 0 <= j < from ==> IsAdminApproval(pool, approvals[j]) && FirstBySigner(approvals, j)
    ensures IsJudgement(pool, approvals, Judged(Faults(pool, approvals), pool.threshold, from))
    decreases |approvals| - from
  {
    hide IsAdminApproval, FirstBySigner, Fault, Refuses;
    var faults := Faults(pool, approvals);
    if from < |approvals| {
      assert faults[from] == Fault(pool, approvals, from);
      FaultlessExactly(pool, approvals, from);
      if faults[from].None? {
        JudgedExactly(pool, approvals, from + 1);
        assert Judged(faults, pool.threshold, from) == Judged(faults, pool.threshold, from + 1);
      } else {
        RefusedAt(pool, approvals, from);
        assert Judged(faults, pool.threshold, from) == faults[from].value;
      }
    }
  }

  lemma RepeatedExactly(approvals: seq<Approval>, i: nat)
    requires i < |approvals|
    ensures NormalizeAddress(approvals[i].address) in SignersBefore(approvals, i) <==> !FirstBySigner(approvals, i)
  {
    var signer := NormalizeAddress(approvals[i].address);
    SignedBefore(approvals, i, signer);
    assert forall j :: 0 <= j < i ==>
      SignedBy(approvals, j, signer) == (NormalizeAddress(approvals[j].address) == signer);
  }

  /** Every verdict, by what is wrong: the pool, the first approval at fault, or their number. */
  ghost predicate IsVerdict(pool: Pool, approvals: seq<Approval>, verdict: Verdict) {
    if pool.source != Chain then verdict == NotLoaded
    else if pool.threshold < 1 then verdict == NoThreshold
    else IsJudgement(pool, approvals, verdict)
  }

  lemma VerdictIsVerdict(pool: Pool, approvals: seq<Approval>)
    ensures IsVerdict(pool, approvals, VerdictOf(pool, approvals))
  {
    if pool.source == Chain && pool.threshold >= 1 {
      JudgedExactly(pool, approvals, 0);
    }
  }

  // ----- The store -----------------------------------------------------------

  function Normalized(approvals: seq<Approval>): (r: seq<Approval>)
    ensures |r| == |approvals|
    ensures forall i :: 0 <= i < |approvals| ==>
              r[i] == approvals[i].(address := NormalizeAddress(approvals[i].address))
  {
    if approvals == [] then []
    else [approvals[0].(address := NormalizeAddress(approvals[0].address))] + Normalized(approvals[1..])
  }

  function Recorded(pool: Pool, recipient: string, amount: string, approvals: seq<Approval>, now: int): Withdrawal {
    Withdrawal(WithdrawalId(now, |pool.withdrawals| + 1), recipient, amount, Normalized(approvals), now)
  }

  /** The withdrawal asked for, with the addresses of its signers normalised. */
  ghost predicate IsWithdrawalOf(w: Withdrawal, earlier: nat, recipient: string, amount: string,
                                 approvals: seq<Approval>, now: int) {
    && w.id.time == now && w.id.number == earlier + 1 && w.createdAt == now
    && w.recipient == recipient && w.amount == amount
    && |w.approvals| == |approvals|
    && forall i :: 0 <= i < |approvals| ==>
         && w.approvals[i].address == NormalizeAddress(approvals[i].address)
         && w.approvals[i].signature == approvals[i].signature && w.approvals[i].signedAt == approvals[i].signedAt
  }

  class PoolStore {
    const catalog: Catalog
    var pools: Pools

    constructor (catalog: Catalog)
      ensures this.catalog == catalog && pools == map[]
    {
      this.catalog := catalog;
      pools := map[];
    }

    /** Looking a pool up creates its record. */
    method GetPoolRecord(id: string) returns (pool: Pool)
      modifies this
      ensures pool == PoolOf(catalog, old(pools), id)
      ensures IsRecord(catalog, old(pools), id, pool)
      ensures pools == old(pools)[id := pool]
    {
      if id !in pools {
        pools := pools[id := NewPool(catalog, id)];
      }
      pool := pools[id];
      assert old(pools)[id := pool] == pools;
    }

    static method ReadAdmins(raw: seq<string>) returns (admins: seq<string>)
      ensures admins == ChainAdmins(raw)
    {
      admins := [];
      for i := 0 to |raw|
        invariant admins == ChainAdmins(raw[..i])
      {
        var admin := NormalizeAddress(raw[i]);
        assert raw[..i + 1][..i] == raw[..i];
        if IsValidStellarAddress(admin) && admin !in admins {
          admins := admins + [admin];
        }
      }
      assert raw[..|raw|] == raw;
    }

    /** A snapshot without admins, or whose threshold they cannot meet, changes nothing. */
    method SyncPoolFromChain(id: string, snapshot: Snapshot) returns (applied: bool)
      modifies this
      ensures applied <==> Acceptable(snapshot)
      ensures !applied ==> pools == old(pools)
      ensures applied ==> pools == old(pools)[id := Governed(PoolOf(catalog, old(pools), id), snapshot)]
      ensures applied <==> CanGovern(snapshot)
      ensures applied ==>
                && pools == old(pools)[id := pools[id]]
                && exists was :: IsRecord(catalog, old(pools), id, was) && IsGoverned(was, pools[id], snapshot)
    {
      hide CanGovern, IsGoverned, IsRecord, PoolOf, ChainAdmins;
      AcceptableExactly(snapshot);
      var admins := ReadAdmins(snapshot.admins);
      var threshold := Floor(snapshot.threshold);
      if |admins| == 0 || threshold.None? || threshold.value < 1 || threshold.value > |admins| {
        return false;
      }
      var pool := GetPoolRecord(id);
      ghost var was := pool;
      GovernedExactly(was, snapshot);
      pool := pool.(admins := admins, threshold := threshold.value, source := Chain);
      if snapshot.balance.Some? {
        pool := pool.(balance := snapshot.balance.value);
      }
      if snapshot.token.Some? {
        pool := pool.(token := snapshot.token.value);
      }
      pools := pools[id := pool];
      assert IsGoverned(was, pools[id], snapshot);
      return true;
    }

    /** The loop of the check, over approvals to a pool whose governance is loaded. */
    static method JudgeApprovals(pool: Pool, approvals: seq<Approval>, ghost faults: seq<Option<Verdict>>)
      returns (verdict: Verdict)
      requires faults == Faults(pool, approvals)
      ensures verdict == Judged(faults, pool.threshold, 0)
    {
      hide NormalizeAddress, IsValidStellarAddress;
      ghost var expected := Judged(faults, pool.threshold, 0);
      var seen: set<string> := {};
      for i := 0 to |approvals|
        invariant seen == SignersBefore(approvals, i)
        invariant expected == Judged(faults, pool.threshold, i)
      {
        assert faults[i] == Fault(pool, approvals, i);
        var signer := NormalizeAddress(approvals[i].address);
        if !IsValidStellarAddress(signer) || signer !in pool.admins {
          return NotAdmin(approvals[i].address);
        }
        if signer in seen {
          return Repeated(signer);
        }
        if approvals[i].signature == "" {
          return NotSigned(signer);
        }
        seen := seen + {signer};
      }
      if |approvals| < pool.threshold {
        return TooFew(pool.threshold, |approvals|);
      }
      return Valid;
    }

    method VerifyPoolApprovals(pool: Pool, approvals: seq<Approval>) returns (verdict: Verdict)
      ensures verdict == VerdictOf(pool, approvals)
      ensures verdict == Valid <==> HasQuorum(pool, approvals)
      ensures IsVerdict(pool, approvals, verdict)
      ensures verdict == Valid ==> forall i :: 0 <= i < |approvals| ==>
                approvals[i].signature != "" && NormalizeAddress(approvals[i].address) in pool.admins
    {
      VerifyAcceptsExactlyQuorums(pool, approvals);
      VerdictIsVerdict(pool, approvals);
      if pool.source != Chain {
        return NotLoaded;
      }
      if pool.threshold < 1 {
        return NoThreshold;
      }
      verdict := JudgeApprovals(pool, approvals, Faults(pool, approvals));
    }

    /** Exactly a valid recipient and a quorum of the current pool get a withdrawal recorded. */
    method RecordPoolWithdrawal(id: string, recipient: string, amount: string, approvals: seq<Approval>, now: int)
      returns (created: Option<Withdrawal>)
      modifies this
      ensures var pool := PoolOf(catalog, old(pools), id);
              && (created.Some? <==> IsValidStellarAddress(recipient) && HasQuorum(pool, approvals))
              && (created.None? ==>
                    pools == if IsValidStellarAddress(recipient) then old(pools)[id := pool] else old(pools))
              && (created.Some? ==>
                    && created.value == Recorded(pool, recipient, amount, approvals, now)
                    && IsWithdrawalOf(created.value, |pool.withdrawals|, recipient, amount, approvals, now)
                    && pools == old(pools)[id := pool.(withdrawals := [created.value] + pool.withdrawals)])
      ensures pools == After(catalog, old(pools), Withdraw(id, recipient, amount, approvals, now))
    {
      if !IsValidStellarAddress(recipient) {
        return None;
      }
      var pool := GetPoolRecord(id);
      var verdict := VerifyPoolApprovals(pool, approvals);
      if verdict != Valid {
        return None;
      }
      var withdrawal := Recorded(pool, recipient, amount, approvals, now);
      pools := pools[id := pool.(withdrawals := [withdrawal] + pool.withdrawals)];
      return Some(withdrawal);
    }

    method SetPoolBalance(id: string, balance: string)
      modifies this
      ensures pools == After(catalog, old(pools), SetBalance(id, balance))
      ensures exists was :: IsRecord(catalog, old(pools), id, was)
                            && pools == old(pools)[id := was.(balance := balance)]
    {
      var pool := GetPoolRecord(id);
      pools := pools[id := pool.(balance := balance)];
    }

    /** An absent or empty id resets every pool. */
    method ResetPoolState(id: Option<string>)
      modifies this
      ensures pools == After(catalog, old(pools), Reset(id))
      ensures pools == if id == None || id == Some("") then map[] else old(pools) - {id.value}
    {
      if id.Some? && id.value != "" {
        pools := pools - {id.value};
      } else {
        pools := map[];
      }
    }
  }

  // ----- Histories -----------------------------------------------------------

  datatype Step =
    | Read(id: string)
    | Sync(id: string, snapshot: Snapshot)
    | Withdraw(id: string, recipient: string, amount: string, approvals: seq<Approval>, now: int)
    | SetBalance(id: string, balance: string)
    | Reset(only: Option<string>)

  function After(catalog: Catalog, pools: Pools, step: Step): Pools {
    match step
    case Read(id) => pools[id := PoolOf(catalog, pools, id)]
    case Sync(id, snapshot) =>
      if Acceptable(snapshot) then pools[id := Governed(PoolOf(catalog, pools, id), snapshot)] else pools
    case Withdraw(id, recipient, amount, approvals, now) =>
      var pool := PoolOf(catalog, pools, id);
      if !IsValidStellarAddress(recipient) then pools
      else if !HasQuorum(pool, approvals) then pools[id := pool]
      else pools[id := pool.(withdrawals := [Recorded(pool, recipient, amount, approvals, now)] + pool.withdrawals)]
    case SetBalance(id, balance) => pools[id := PoolOf(catalog, pools, id).(balance := balance)]
    case Reset(only) => if only.Some? && only.value != "" then pools - {only.value} else map[]
  }

  ghost predicate IsHistory(catalog: Catalog, states: seq<Pools>, steps: seq<Step>) {
    && |states| == |steps| + 1
    && states[0] == map[]
    && forall k :: 0 <= k < |steps| ==> states[k + 1] == After(catalog, states[k], steps[k])
  }

  /** Governance is all there, from the chain, or none at all. */
  predicate IsSound(pool: Pool) {
    if pool.source == Chain then
      && Distinct(pool.admins)
      && (forall i :: 0 <= i < |pool.admins| ==> IsAdminName(pool.admins[i]))
      && 1 <= pool.threshold <= |pool.admins|
    else
      pool.admins == [] && pool.threshold == 0
  }

  ghost predicate AllSound(pools: Pools) {
    forall id :: id in pools ==> IsSound(pools[id])
  }

  lemma StepKeepsSound(catalog: Catalog, pools: Pools, step: Step)
    requires AllSound(pools)
    ensures AllSound(After(catalog, pools, step))
  {
    if step.Sync? {
      ChainAdminsAreGood(step.snapshot.admins);
    }
  }

  /** In every reachable store a chain-sourced pool has distinct valid admins and a threshold they can meet. */
  lemma {:induction false} ReachablePoolsAreSound(catalog: Catalog, states: seq<Pools>, steps: seq<Step>, n: nat)
    requires IsHistory(catalog, states, steps) && n < |states|
    ensures AllSound(states[n])
  {
    if n > 0 {
      ReachablePoolsAreSound(catalog, states, steps, n - 1);
      StepKeepsSound(catalog, states[n - 1], steps[n - 1]);
    }
  }

  /** Step `k` recorded `w`, with a quorum of the pool as it then was. */
  ghost predicate RecordedWithQuorum(catalog: Catalog, states: seq<Pools>, steps: seq<Step>, k: int, id: string,
                                     w: Withdrawal)
    requires |states| == |steps| + 1
  {
    && 0 <= k < |steps|
    && steps[k].Withdraw? && steps[k].id == id
    && IsValidStellarAddress(steps[k].recipient)
    && HasQuorum(PoolOf(catalog, states[k], id), steps[k].approvals)
    && w == Recorded(PoolOf(catalog, states[k], id), steps[k].recipient, steps[k].amount, steps[k].approvals,
                     steps[k].now)
  }

  /** A withdrawal that is new after a step was recorded by that step. */
  lemma OnlyQuorumsAdd(catalog: Catalog, pools: Pools, step: Step, id: string, w: Withdrawal)
    requires id in After(catalog, pools, step) && w in After(catalog, pools, step)[id].withdrawals
    requires !(id in pools && w in pools[id].withdrawals)
    ensures && step.Withdraw? && step.id == id && IsValidStellarAddress(step.recipient)
            && HasQuorum(PoolOf(catalog, pools, id), step.approvals)
            && w == Recorded(PoolOf(catalog, pools, id), step.recipient, step.amount, step.approvals, step.now)
  {
  }

  /** Every withdrawal in every reachable store had the quorum of its pool when it was recorded. */
  lemma {:induction false} EveryWithdrawalHadItsQuorum(catalog: Catalog, states: seq<Pools>, steps: seq<Step>, n: nat,
                                                       id: string, w: Withdrawal)
    requires IsHistory(catalog, states, steps) && n < |states|
    requires id in states[n] && w in states[n][id].withdrawals
    ensures exists k :: k < n && RecordedWithQuorum(catalog, states, steps, k, id, w)
  {
    if n > 0 {
      if id in states[n - 1] && w in states[n - 1][id].withdrawals {
        EveryWithdrawalHadItsQuorum(catalog, states, steps, n - 1, id, w);
      } else {
        OnlyQuorumsAdd(catalog, states[n - 1], steps[n - 1], id, w);
        assert RecordedWithQuorum(catalog, states, steps, n - 1, id, w);
      }
    }
  }

  // ----- The chain decides ----------------------------------------------------

  /** An applied sync of the pool. */
  ghost predicate Syncs(step: Step, id: string) {
    step.Sync? && step.id == id && CanGovern(step.snapshot)
  }

  ghost predicate Resets(step: Step, id: string) {
    step.Reset? && (step.only == None || step.only == Some("") || step.only == Some(id))
  }

  /** Step `k` is the last applied sync of the pool before step `n`, and the pool was not reset since. */
  ghost predicate LastSync(steps: seq<Step>, k: nat, n: nat, id: string)
    requires n <= |steps|
  {
    && k < n && Syncs(steps[k], id)
    && forall m :: k < m < n ==> !Syncs(steps[m], id) && !Resets(steps[m], id)
  }

  lemma StepKeepsGovernance(catalog: Catalog, pools: Pools, step: Step, id: string)
    requires id in After(catalog, pools, step) && After(catalog, pools, step)[id].source == Chain
    ensures Syncs(step, id) ==> HasGovernance(After(catalog, pools, step)[id], step.snapshot)
    ensures !Syncs(step, id) ==>
              && !Resets(step, id) && id in pools
              && After(catalog, pools, step)[id].admins == pools[id].admins
              && After(catalog, pools, step)[id].threshold == pools[id].threshold
              && pools[id].source == Chain
  {
    if step.Sync? {
      AcceptableExactly(step.snapshot);
      if Acceptable(step.snapshot) {
        GovernedExactly(PoolOf(catalog, pools, step.id), step.snapshot);
      }
    }
  }

  /** In every history a chain-sourced pool has the admins and the threshold of its last applied snapshot. */
  lemma {:induction false} GovernanceIsTheLastSnapshots(catalog: Catalog, states: seq<Pools>, steps: seq<Step>, n: nat,
                                                        id: string) returns (k: nat)
    requires IsHistory(catalog, states, steps) && n < |states|
    requires id in states[n] && states[n][id].source == Chain
    ensures LastSync(steps, k, n, id) && HasGovernance(states[n][id], steps[k].snapshot)
  {
    hide CanGovern, ListsInOrder;
    StepKeepsGovernance(catalog, states[n - 1], steps[n - 1], id);
    if Syncs(steps[n - 1], id) {
      k := n - 1;
    } else {
      k := GovernanceIsTheLastSnapshots(catalog, states, steps, n - 1, id);
    }
  }

  /** All approvals are signed, each by another admin of the snapshot, and as many as its threshold asks for. */
  ghost predicate MeetsSnapshot(snapshot: Snapshot, approvals: seq<Approval>) {
    && snapshot.threshold.Finite? && snapshot.threshold.value < (|approvals| + 1) as real
    && (forall i :: 0 <= i < |approvals| ==>
          && approvals[i].signature != ""
          && NormalizeAddress(approvals[i].address) in ValidAdmins(snapshot.admins))
    && (forall i, j :: 0 <= i < j < |approvals| ==>
          NormalizeAddress(approvals[i].address) != NormalizeAddress(approvals[j].address))
  }

  lemma QuorumMeetsSnapshot(pool: Pool, snapshot: Snapshot, approvals: seq<Approval>)
    requires HasQuorum(pool, approvals) && HasGovernance(pool, snapshot)
    ensures MeetsSnapshot(snapshot, approvals)
  {
    var raw := snapshot.admins;
    assert raw[..|raw|] == raw;
    assert ListsFirst(pool.admins, ValidAdmins(raw[..|raw|]));
    assert pool.admins[..|pool.admins|] == pool.admins;
  }

  /** Step `k` asked for the withdrawal, signed as the snapshot of step `l`, the pool's last, demands. */
  ghost predicate SignedForSnapshot(steps: seq<Step>, l: nat, k: nat, id: string, w: Withdrawal)
    requires k < |steps|
  {
    && LastSync(steps, l, k, id)
    && steps[k].Withdraw? && steps[k].id == id && IsValidStellarAddress(steps[k].recipient)
    && MeetsSnapshot(steps[l].snapshot, steps[k].approvals)
    && exists earlier ::
         IsWithdrawalOf(w, earlier, steps[k].recipient, steps[k].amount, steps[k].approvals, steps[k].now)
  }

  /** Every withdrawal ever recorded was signed as the chain, as last read, demanded at that time. */
  lemma EveryWithdrawalWasSigned(catalog: Catalog, states: seq<Pools>, steps: seq<Step>, n: nat,
                                 id: string, w: Withdrawal) returns (l: nat, k: nat)
    requires IsHistory(catalog, states, steps) && n < |states|
    requires id in states[n] && w in states[n][id].withdrawals
    ensures k < n && SignedForSnapshot(steps, l, k, id, w)
  {
    EveryWithdrawalHadItsQuorum(catalog, states, steps, n, id, w);
    k :| k < n && RecordedWithQuorum(catalog, states, steps, k, id, w);
    hide CanGovern, ListsInOrder, MeetsSnapshot;
    l := GovernanceIsTheLastSnapshots(catalog, states, steps, k, id);
    QuorumMeetsSnapshot(states[k][id], steps[l].snapshot, steps[k].approvals);
    var s := steps[k];
    assert IsWithdrawalOf(w, |states[k][id].withdrawals|, s.recipient, s.amount, s.approvals, s.now);
  }
}
