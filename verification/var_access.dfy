/** Entries of an access footprint (inc/types.h, src/var_access.c). */
module VarAccesses {

  datatype Option<+T> = None | Some(value: T)

  type byte = x: int | 0 <= x < 256

  /** The bytes of a C string before its terminator. */
  type CString = seq<byte>

  datatype AccessType =
    | Null
    | Read
    | Write
    | PtrRead
    | PtrWrite
    | Escape
    | LockAcquire
    | LockRelease
    | Call
    | IfStmt
    | ThenBlock
    | ElseStmt
    | EndIf

  /** One entry. `id` stands for the heap addresses of the entry's own strings: the C compares
      whole entries byte by byte, pointers included, so two entries that merely read alike differ.
      Marker entries, whose USR is NULL in C, carry the empty string. */
  datatype VarAccess = VarAccess(
    id: nat,
    usr: CString,
    name: CString,
    parentFunc: CString,
    escFunc: Option<CString>,
    escParam: nat,
    line: nat,
    column: nat,
    ty: AccessType,
    isPtr: bool)

  type Footprint = seq<VarAccess>

  /** Null, or a type between Call and EndIf in the C enumeration. The two lock types come before
      Call, so they are not placeholders. */
  predicate IsPlaceholder(t: AccessType) {
    t.Null? || t.Call? || t.IfStmt? || t.ThenBlock? || t.ElseStmt? || t.EndIf?
  }

  /** An access to a variable, or a lock or unlock call: what the comparison of two functions is about. */
  predicate IsAccess(t: AccessType) {
    t in {Read, Write, PtrRead, PtrWrite, Escape, LockAcquire, LockRelease}
  }

  lemma {:induction false} AccessesAreNoPlaceholders(t: AccessType)
    ensures IsAccess(t) <==> !IsPlaceholder(t)
  {
  }

  /** An entry of which only the variable and the type matter. */
  function Entry(usr: CString, ty: AccessType): VarAccess {
    VarAccess(0, usr, [], [], None, 0, 0, 0, ty, false)
  }
}
