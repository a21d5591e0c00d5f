/**
 * The per-key update lock registry of a topic handle
 * (`listeners: HashMap<String, Vec<Sender<()>>>`): a key is locked exactly
 * when it has an entry; the entry lists the waiters to wake on release.
 * Waiters stand for the one-shot senders; a waiter is woken when its
 * sender is dropped with the entry.
 */
module LockRegistry {

  /** Identifies the task behind one one-shot wake-up channel. */
  type Waiter = nat

  type Registry = map<string, seq<Waiter>>

  datatype Acquisition = Acquisition(reg: Registry, granted: bool)

  datatype Release = Release(reg: Registry, woken: seq<Waiter>)

  /**
   * One pass of the `get_for_update` loop: a free key gets an empty entry
   * and the caller holds the lock; a locked key gets the caller appended
   * to its waiters and the caller is not granted.
   */
  function Acquire(reg: Registry, key: string, w: Waiter): (a: Acquisition)
    ensures a.granted <==> key !in reg
    ensures a.reg.Keys == reg.Keys + {key}
    ensures a.granted ==> a.reg[key] == []
    ensures !a.granted ==> a.reg[key] == reg[key] + [w]
    ensures forall k :: k in reg && k != key ==> a.reg[k] == reg[k]
  {
    if key in reg then Acquisition(reg[key := reg[key] + [w]], false)
    else Acquisition(reg[key := []], true)
  }

  /**
   * Dropping a `KeyUpdater`: the entry, which must exist, is removed, and
   * every waiter it held is woken to retry.
   */
  function Unlock(reg: Registry, key: string): (r: Release)
    requires key in reg
    ensures r.reg.Keys == reg.Keys - {key}
    ensures r.woken == reg[key]
    ensures forall k :: k in r.reg ==> r.reg[k] == reg[k]
  {
    Release(reg - {key}, reg[key])
  }

  /** Taking a free key and giving it back without anyone waiting leaves the registry as it was. */
  lemma UnlockUndoesAcquire(reg: Registry, key: string, w: Waiter)
    requires key !in reg
    ensures Acquire(reg, key, w).granted
    ensures Unlock(Acquire(reg, key, w).reg, key) == Release(reg, [])
  {
  }
}
