/** The locking functions prongC knows (src/lock_tracking.c:5-45). */
module LockPrimitives {
  import opened VarAccesses

  const DEFAULT_LOCK_PAIRS: seq<(string, string)> := [
    ("pthread_mutex_lock", "pthread_mutex_unlock"),
    ("pthread_mutex_trylock", "pthread_mutex_unlock"),
    ("pthread_spin_lock", "pthread_spin_unlock"),
    ("pthread_spin_trylock", "pthread_spin_unlock"),
    ("mutex_lock", "mutex_unlock"),
    ("mutex_lock_interruptible", "mutex_unlock"),
    ("mutex_lock_killable", "mutex_unlock"),
    ("spin_lock", "spin_unlock"),
    ("spin_lock_irq", "spin_unlock_irq"),
    ("spin_lock_irqsave", "spin_unlock_irqrestore"),
    ("spin_lock_bh", "spin_unlock_bh"),
    ("raw_spin_lock", "raw_spin_unlock"),
    ("raw_spin_lock_irq", "raw_spin_unlock_irq"),
    ("raw_spin_lock_irqsave", "raw_spin_lock_irqrestore")
  ]

  function Bytes(s: string): CString {
    seq(|s|, i requires 0 <= i < |s| => s[i] as int % 256)
  }

  function LockFunc(k: nat): CString
    requires k < |DEFAULT_LOCK_PAIRS|
  {
    Bytes(DEFAULT_LOCK_PAIRS[k].0)
  }

  function UnlockFunc(k: nat): CString
    requires k < |DEFAULT_LOCK_PAIRS|
  {
    Bytes(DEFAULT_LOCK_PAIRS[k].1)
  }

  /** Looks a function up in the pairs from k on: acquire, release, or Null for neither. */
  function PrimitiveTypeFrom(k: nat, spelling: CString): (t: AccessType)
    requires k <= |DEFAULT_LOCK_PAIRS|
    ensures t.LockAcquire? || t.LockRelease? || t.Null?
    decreases |DEFAULT_LOCK_PAIRS| - k
  {
    if k == |DEFAULT_LOCK_PAIRS| then Null
    else if spelling == LockFunc(k) then LockAcquire
    else if spelling == UnlockFunc(k) then LockRelease
    else PrimitiveTypeFrom(k + 1, spelling)
  }

  function LockPrimitiveType(spelling: CString): (t: AccessType)
    ensures t.LockAcquire? || t.LockRelease? || t.Null?
  {
    PrimitiveTypeFrom(0, spelling)
  }

  // ----- which functions take locks, and which release them -----

  ghost predicate TakesFrom(k: nat, spelling: CString) {
    exists j: nat :: k <= j < |DEFAULT_LOCK_PAIRS| && spelling == LockFunc(j)
  }

  ghost predicate ReleasesFrom(k: nat, spelling: CString) {
    exists j: nat :: k <= j < |DEFAULT_LOCK_PAIRS| && spelling == UnlockFunc(j)
  }

  lemma {:induction false} NoNameIsBoth(k: nat, m: nat)
    requires k < |DEFAULT_LOCK_PAIRS| && m < |DEFAULT_LOCK_PAIRS|
    ensures LockFunc(k) != UnlockFunc(m)
  {
    var f, g := DEFAULT_LOCK_PAIRS[k].0, DEFAULT_LOCK_PAIRS[m].1;
    if |f| == |g| {
      var i := if k == 3 then 8 else 0;
      assert f[i] as int % 256 != g[i] as int % 256;
      assert Bytes(f)[i] != Bytes(g)[i];
    }
  }

  lemma {:induction false} LockTypeFromExactly(k: nat, spelling: CString)
    requires k <= |DEFAULT_LOCK_PAIRS|
    ensures var t := PrimitiveTypeFrom(k, spelling);
            && (t.LockAcquire? <==> TakesFrom(k, spelling))
            && (t.LockRelease? <==> ReleasesFrom(k, spelling))
    decreases |DEFAULT_LOCK_PAIRS| - k
  {
    hide LockFunc, UnlockFunc;
    if k < |DEFAULT_LOCK_PAIRS| {
      LockTypeFromExactly(k + 1, spelling);
      forall j: nat | j < |DEFAULT_LOCK_PAIRS|
        ensures LockFunc(k) != UnlockFunc(j)
        ensures LockFunc(j) != UnlockFunc(k)
      {
        NoNameIsBoth(k, j);
        NoNameIsBoth(j, k);
      }
    }
  }

  /** The first name of some pair. */
  ghost predicate TakesLock(spelling: CString) {
    exists k :: 0 <= k < |DEFAULT_LOCK_PAIRS| && spelling == Bytes(DEFAULT_LOCK_PAIRS[k].0)
  }

  /** The second name of some pair. */
  ghost predicate ReleasesLock(spelling: CString) {
    exists k :: 0 <= k < |DEFAULT_LOCK_PAIRS| && spelling == Bytes(DEFAULT_LOCK_PAIRS[k].1)
  }

  lemma {:induction false} FromTheFirst(spelling: CString)
    ensures TakesFrom(0, spelling) <==> TakesLock(spelling)
    ensures ReleasesFrom(0, spelling) <==> ReleasesLock(spelling)
  {
    hide Bytes;
    assert forall k: nat :: k < |DEFAULT_LOCK_PAIRS| ==> LockFunc(k) == Bytes(DEFAULT_LOCK_PAIRS[k].0);
    assert forall k: nat :: k < |DEFAULT_LOCK_PAIRS| ==> UnlockFunc(k) == Bytes(DEFAULT_LOCK_PAIRS[k].1);
  }

  /** The first name of a pair takes a lock and the second releases one; no name does both, and no
      other name does either. */
  lemma {:induction false} LockTypeExactly(spelling: CString)
    ensures LockPrimitiveType(spelling).LockAcquire? <==> TakesLock(spelling)
    ensures LockPrimitiveType(spelling).LockRelease? <==> ReleasesLock(spelling)
    ensures LockPrimitiveType(spelling).Null? <==> !TakesLock(spelling) && !ReleasesLock(spelling)
  {
    hide TakesLock, ReleasesLock;
    LockTypeFromExactly(0, spelling);
    FromTheFirst(spelling);
  }
}
