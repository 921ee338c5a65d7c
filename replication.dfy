/**
 * The backup's heartbeat (PingThread). Every interval the backup sleeps, then pings
 * the primary it resolved when it started; the first failed ping makes it take over:
 * it removes its own record under the backup path, binds itself under the primary
 * path, and stops.
 *
 * The naming service is a map from path to address. Its two operations are modelled
 * as: unbind fails unless the path is bound to exactly that address, and rebind
 * always succeeds. The timer and the ping are the `ticks` handed to Run.
 */
module Replication {
  import opened Wrappers

  datatype Address = Address(host: string, port: string)

  type Naming = map<string, Address>

  const BasePath: string := "/grpc/sirs/server"
  const BackupPath: string := BasePath + "/backup"
  const PrimaryPath: string := BasePath + "/primary"

  /** One pass of the loop: the sleep was interrupted, the primary answered, or it did not. */
  datatype Tick = Interrupted | Pong | NoPong

  /** ZKNaming.unbind: None stands for the naming exception. */
  function Unbind(naming: Naming, path: string, self: Address): (r: Option<Naming>)
    ensures r.Some? <==> path in naming && naming[path] == self
    ensures r.Some? ==> r.value == naming - {path}
  {
    if path in naming && naming[path] == self then Some(naming - {path}) else None
  }

  function Rebind(naming: Naming, path: string, self: Address): (r: Naming)
    ensures path in r && r[path] == self
    ensures forall p :: p in naming && p != path ==> p in r && r[p] == naming[p]
    ensures forall p :: p in r && p != path ==> p in naming
  {
    naming[path := self]
  }

  /**
   * The promotion step: unbind from the backup path, then rebind the primary path.
   * When the unbind fails the rebind is skipped and the error is swallowed. A backup
   * registered under the backup path ends up as the primary and no longer as the
   * backup, with every other binding kept; any other backup changes nothing.
   */
  function Promote(naming: Naming, self: Address): (r: Naming)
    ensures BackupPath in naming && naming[BackupPath] == self ==>
              && BackupPath !in r && PrimaryPath in r && r[PrimaryPath] == self
              && forall p :: p != BackupPath && p != PrimaryPath ==>
                   (p in naming <==> p in r) && (p in naming ==> r[p] == naming[p])
    ensures !(BackupPath in naming && naming[BackupPath] == self) ==> r == naming
  {
    assert BackupPath[|BasePath| + 1] == 'b' && PrimaryPath[|BasePath| + 1] == 'p';
    match Unbind(naming, BackupPath, self)
    case None => naming
    case Some(unbound) => Rebind(unbound, PrimaryPath, self)
  }

  /** The position of the first failed ping, if there is one. */
  function FirstFailure(ticks: seq<Tick>): (r: Option<nat>)
    ensures r.None? <==> NoPong !in ticks
    ensures r.Some? ==> r.value < |ticks| && ticks[r.value] == NoPong && NoPong !in ticks[..r.value]
  {
    if ticks == [] then None
    else if ticks[0] == NoPong then Some(0)
    else
      match FirstFailure(ticks[1..])
      case None => None
      case Some(k) =>
        assert ticks[..k + 1] == [ticks[0]] + ticks[1..][..k];
        Some(k + 1)
  }

  class PingThread {
    /** The primary's address, looked up once when the thread is built. */
    const primary: Address
    const self: Address

    /** The constructor resolves the primary path; that lookup failing is the constructor's exception. */
    constructor (naming: Naming, host: string, port: string)
      requires PrimaryPath in naming
      ensures primary == naming[PrimaryPath] && self == Address(host, port)
    {
      primary := naming[PrimaryPath];
      self := Address(host, port);
    }

    /**
     * run, over the outcomes of its passes: it consumes ticks up to and including the
     * first failed ping, promotes itself once and returns. Interrupted sleeps and
     * answered pings change nothing. With no failure among the ticks the thread is
     * still running when they run out.
     */
    method Run(naming: Naming, ticks: seq<Tick>) returns (after: Naming, promoted: bool, consumed: nat)
      ensures promoted <==> NoPong in ticks
      ensures !promoted ==> after == naming && consumed == |ticks|
      ensures promoted ==> && 0 < consumed <= |ticks| && ticks[consumed - 1] == NoPong
                           && NoPong !in ticks[..consumed - 1]
                           && FirstFailure(ticks) == Some(consumed - 1)
                           && after == Promote(naming, self)
    {
      var i := 0;
      while i < |ticks|
        invariant 0 <= i <= |ticks|
        invariant NoPong !in ticks[..i]
      {
        match ticks[i]
        case Interrupted =>
          i := i + 1;
        case Pong =>
          i := i + 1;
        case NoPong =>
          var unbound := Unbind(naming, BackupPath, self);
          after := naming;
          if unbound.Some? {
            after := Rebind(unbound.value, PrimaryPath, self);
          }
          return after, true, i + 1;
      }
      assert ticks[..i] == ticks;
      return naming, false, |ticks|;
    }
  }
}
