/** The stored documents of the API that admission, moderation and reports read. */
module Documents {
  import opened Strings

  datatype Entitlement = Admin | GlobalServerModerator | OfficialServerModerator | Staff | OtherEntitlement(name: string)

  datatype User = User(id: string, moderatorIds: seq<string>, entitlements: seq<Entitlement>) {
    predicate Entitled(e: Entitlement) { e in entitlements }
  }

  datatype Server = Server(id: string, hostId: string, official: bool, password: Option<string>, playerCount: nat, maxPlayerCount: nat) {
    predicate CanManage(host: User, user: User) {
      user.Entitled(GlobalServerModerator) || user.id == hostId || user.id in host.moderatorIds
    }
  }

  datatype JoinToken = JoinToken(id: string, token: string, user: string, server: string)

  // ---------------------------------------------------------------- times

  /** Times are counted in nanoseconds from an epoch; durations are asked for in seconds. */
  const SECOND: nat := 1_000_000_000
  const WORD: nat := 0x1_0000_0000_0000_0000

  type Uint64 = n: nat | n < WORD

  /** What a 64-bit signed number holds after an unsigned result is cut to its width. */
  function Signed(n: nat): int { if n % WORD < WORD / 2 then n % WORD else n % WORD - WORD }

  /** time.Now().Add(time.Duration(seconds) * time.Second) */
  function After(now: int, seconds: Uint64): int { now + Signed(seconds * SECOND) }

  /** The longest duration that can be counted in nanoseconds: a little over 292 years. */
  const MAX_SECONDS: nat := 9_223_372_036

  /** The end is the one asked for exactly up to that duration; any longer one ends too early. */
  lemma AfterIsExact(now: int, seconds: Uint64)
    ensures After(now, seconds) == now + seconds * SECOND <==> seconds <= MAX_SECONDS
    ensures After(now, seconds) <= now + seconds * SECOND
  {
  }

  datatype PunishmentType = Kick | Ban

  /** The issuer is the host whose servers the punishment is about, or none for a global one. */
  datatype Punishment = Punishment(
    id: string, kind: PunishmentType, issuer: Option<string>, user: string, expiresAt: Option<int>, overturnedBy: Option<string>)
  {
    predicate IsActive(now: int) {
      overturnedBy.None? && (expiresAt.None? || expiresAt.value > now)
    }
  }
}
