/**
 The achievement ledger: a map from achievement id to "unlocked", kept in the
 browser's key-value store. Unlocking is idempotent and never revoked.
 */
module Achievements {

  const FirstQuiz := "FIRST_QUIZ"
  const NoHints := "NO_HINTS"
  const PerfectScore := "PERFECT_SCORE"

  /** What the store holds under the ledger key. */
  datatype LedgerStore = NoLedger | CorruptLedger | Ledger(unlocked: map<string, bool>)

  /** `getUnlockedAchievements`: a missing or unreadable ledger reads as empty. */
  function GetUnlocked(store: LedgerStore): (m: map<string, bool>)
    ensures !store.Ledger? ==> m == map[]
  {
    match store
    case Ledger(m) => m
    case _ => map[]
  }

  /** JavaScript's `unlocked[id]` read as a boolean: a missing key is falsy. */
  predicate IsUnlocked(m: map<string, bool>, id: string) {
    id in m && m[id]
  }

  datatype UnlockResult = UnlockResult(store: LedgerStore, newlyUnlocked: bool)

  /** `unlockAchievement`: reports whether this call unlocked `id`; after it
      `id` is unlocked and every other entry is what it was. */
  function UnlockAchievement(store: LedgerStore, id: string): (r: UnlockResult)
    ensures r.newlyUnlocked <==> !IsUnlocked(GetUnlocked(store), id)
    ensures IsUnlocked(GetUnlocked(r.store), id)
    ensures forall k | k != id :: k in GetUnlocked(r.store) <==> k in GetUnlocked(store)
    ensures forall k | k != id && k in GetUnlocked(store) :: GetUnlocked(r.store)[k] == GetUnlocked(store)[k]
    ensures !r.newlyUnlocked ==> r.store == store
  {
    var unlocked := GetUnlocked(store);
    if !IsUnlocked(unlocked, id) then UnlockResult(Ledger(unlocked[id := true]), true)
    else UnlockResult(store, false)
  }

  /** A second unlock of the same id reports nothing new and changes nothing. */
  lemma UnlockIdempotent(store: LedgerStore, id: string)
    ensures var once := UnlockAchievement(store, id).store;
      UnlockAchievement(once, id) == UnlockResult(once, false)
  {
  }

  /** Unlocking never revokes: whatever was unlocked stays unlocked. */
  lemma UnlockMonotone(store: LedgerStore, id: string, other: string)
    requires IsUnlocked(GetUnlocked(store), other)
    ensures IsUnlocked(GetUnlocked(UnlockAchievement(store, id).store), other)
  {
  }
}
