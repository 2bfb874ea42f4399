/** The packed array of strings (src/dyn_aos.c): all strings lie NUL-terminated in one block that
    realloc may move, and an array of pointers into the block is rebased when it does. Pointers are
    integer addresses. */
module DynAos {
  import opened VarAccesses

  const AOS_INITIAL_CAP := 64
  const AOS_MAX_STR_COUNT := 64

  datatype ProngError = ERR_OK | ERR_AOS_EMPTY

  predicate IsCString(s: CString) {
    forall i :: 0 <= i < |s| ==> s[i] != 0
  }

  /** The bytes of the strings one after the other, each with its terminator. */
  function Pack(cs: seq<CString>): CString {
    if cs == [] then [] else Pack(cs[..|cs| - 1]) + cs[|cs| - 1] + [0]
  }

  /** Where string i starts: one byte more than its length for every string before it. */
  function Offset(cs: seq<CString>, i: nat): nat
    requires i <= |cs|
  {
    if i == 0 then 0 else Offset(cs, i - 1) + |cs[i - 1]| + 1
  }

  lemma {:induction false} OffsetIsPackedLength(cs: seq<CString>, i: nat)
    requires i <= |cs|
    ensures Offset(cs, i) == |Pack(cs[..i])|
  {
    if i > 0 {
      OffsetIsPackedLength(cs, i - 1);
      assert cs[..i][..i - 1] == cs[..i - 1];
    }
  }

  /** String i and its terminator, found at its offset. */
  lemma {:induction false} PackedAt(cs: seq<CString>, i: nat)
    requires i < |cs|
    ensures Offset(cs, i) + |cs[i]| + 1 <= |Pack(cs)|
    ensures Pack(cs)[Offset(cs, i)..Offset(cs, i) + |cs[i]| + 1] == cs[i] + [0]
  {
    var front := cs[..|cs| - 1];
    if i == |front| {
      OffsetIsPackedLength(cs, i);
      assert Pack(cs) == Pack(front) + (cs[i] + [0]);
    } else {
      PackedAt(front, i);
      OffsetOfPrefix(cs, |cs| - 1, i);
      assert Pack(cs) == Pack(front) + (cs[|cs| - 1] + [0]);
    }
  }

  lemma {:induction false} OffsetOfPrefix(cs: seq<CString>, n: nat, i: nat)
    requires i <= n <= |cs|
    ensures Offset(cs[..n], i) == Offset(cs, i)
  {
    if i > 0 {
      OffsetOfPrefix(cs, n, i - 1);
    }
  }

  /** Appending a string appends its bytes and moves no other string. */
  lemma {:induction false} PackedAppend(cs: seq<CString>, str: CString)
    ensures Pack(cs + [str]) == Pack(cs) + str + [0]
    ensures forall i :: 0 <= i <= |cs| ==> Offset(cs + [str], i) == Offset(cs, i)
    ensures Offset(cs, |cs|) == |Pack(cs)|
  {
    var more := cs + [str];
    assert more[..|cs|] == cs;
    forall i | 0 <= i <= |cs|
      ensures Offset(more, i) == Offset(cs, i)
    {
      OffsetOfPrefix(more, |cs|, i);
    }
    OffsetIsPackedLength(cs, |cs|);
    assert cs[..|cs|] == cs;
  }

  class DynamicAos {
    ghost var contents: seq<CString>
    ghost var Repr: set<object>

    var base: int
    var data: array<byte>
    var strings: array<int>
    var size: nat
    var count: nat

    ghost predicate Valid()
      reads this, Repr
      ensures Valid() ==> this in Repr
    {
      && this in Repr && data in Repr && strings in Repr
      && count == |contents| <= strings.Length
      && size <= data.Length
      && data[..size] == Pack(contents)
      && (forall i :: 0 <= i < count ==> IsCString(contents[i]))
      && (forall i :: 0 <= i < count ==> strings[i] == base + Offset(contents, i))
    }

    constructor (base: int)
      ensures Valid() && fresh(Repr) && contents == []
    {
      this.base := base;
      data := new byte[AOS_INITIAL_CAP];
      strings := new int[AOS_MAX_STR_COUNT];
      size, count := 0, 0;
      contents := [];
      Repr := {this, data, strings};
    }

    method GrowStrings()
      requires Valid()
      modifies Repr
      ensures Valid() && fresh(Repr - old(Repr))
      ensures contents == old(contents) && count < strings.Length
      ensures data == old(data) && size == old(size) && data[..] == old(data[..])
    {
      if count + 1 > strings.Length {
        var newCap := if strings.Length != 0 then strings.Length * 2 else AOS_MAX_STR_COUNT;
        var grown := new int[newCap];
        forall i | 0 <= i < count {
          grown[i] := strings[i];
        }
        strings := grown;
        Repr := Repr + {grown};
      }
    }

    /** One doubling. The block ends up at an address of realloc's choosing. */
    method GrowData(newBase: int)
      requires Valid()
      modifies Repr
      ensures Valid() && fresh(Repr - old(Repr))
      ensures contents == old(contents) && count == old(count) && size == old(size) && base == newBase
      ensures strings == old(strings)
      ensures data.Length == if old(data.Length) != 0 then 2 * old(data.Length) else AOS_INITIAL_CAP
    {
      var newCap := if data.Length != 0 then data.Length * 2 else AOS_INITIAL_CAP;
      var grown := new byte[newCap];
      forall i | 0 <= i < size {
        grown[i] := data[i];
      }
      assert grown[..size] == data[..size];
      UpdateOldStrings(strings, count, newBase - base);
      data, base := grown, newBase;
      Repr := Repr + {grown};
    }

    /** Moves the first `count` string pointers by the distance the block has moved. */
    static method UpdateOldStrings(strings: array<int>, count: nat, diff: int)
      requires count <= strings.Length
      modifies strings
      ensures forall k :: 0 <= k < count ==> strings[k] == old(strings[k]) + diff
    {
      var i := 0;
      while i < count
        invariant 0 <= i <= count
        invariant forall k :: 0 <= k < i ==> strings[k] == old(strings[k]) + diff
        invariant forall k :: i <= k < count ==> strings[k] == old(strings[k])
      {
        strings[i] := strings[i] + diff;
        i := i + 1;
      }
    }

    method PushString(str: CString)
      requires Valid() && IsCString(str)
      modifies Repr
      ensures Valid() && fresh(Repr - old(Repr))
      ensures contents == old(contents) + [str]
    {
      var strSize := |str| + 1;
      GrowStrings();
      while size + strSize > data.Length
        invariant Valid() && fresh(Repr - old(Repr)) && contents == old(contents) && count < strings.Length
        decreases size + strSize - data.Length
      {
        var newBase: int := *;
        GrowData(newBase);
      }
      AppendString(str);
    }

    /** Copies the string and its terminator behind the others; there is room for both. */
    method AppendString(str: CString)
      requires Valid() && IsCString(str)
      requires count < strings.Length && size + |str| + 1 <= data.Length
      modifies this, data, strings
      ensures Valid() && Repr == old(Repr) && contents == old(contents) + [str]
    {
      ghost var packed := data[..size];
      forall i | 0 <= i < |str| {
        data[size + i] := str[i];
      }
      data[size + |str|] := 0;
      strings[count] := base + size;
      assert data[..size] == packed;
      assert data[..size + |str| + 1] == packed + str + [0];
      PackedAppend(contents, str);
      contents := contents + [str];
      size := size + |str| + 1;
      count := count + 1;
    }

    /** strlen of string i, read off the block. */
    method StringLength(i: nat) returns (n: nat)
      requires Valid() && i < count
      ensures n == |contents[i]|
    {
      var at := strings[i] - base;
      PackedAt(contents, i);
      ghost var str := contents[i] + [0];
      assert forall k :: 0 <= k < |str| ==> data[at + k] == data[..size][at..at + |str|][k] == str[k];
      n := 0;
      while data[at + n] != 0
        invariant 0 <= n <= |contents[i]|
        decreases |contents[i]| - n
      {
        assert data[at + n] == str[n];
        n := n + 1;
      }
      assert data[at + n] == str[n];
    }

    /** The C tests i > count - 1 on unsigned numbers. On an empty array the test never holds, so it
        hands out a slot that was never written: nothing is promised about that case. */
    method StringAt(i: nat) returns (r: Option<CString>)
      requires Valid()
      ensures contents != [] ==> r == if i < count then Some(contents[i]) else None
    {
      if count == 0 {
        r := *;
        return;
      }
      if i > count - 1 {
        return None;
      }
      var n := StringLength(i);
      var at := strings[i] - base;
      PackedAt(contents, i);
      var found := data[at..at + n];
      forall k | 0 <= k < n
        ensures found[k] == contents[i][k]
      {
        assert data[..size][at..at + n + 1][k] == data[at + k];
        assert (contents[i] + [0])[k] == contents[i][k];
      }
      assert found == contents[i];
      r := Some(found);
    }

    method PopString() returns (e: ProngError)
      requires Valid()
      modifies this
      ensures Valid() && Repr == old(Repr)
      ensures e == if old(contents) == [] then ERR_AOS_EMPTY else ERR_OK
      ensures contents == if old(contents) == [] then [] else old(contents)[..|old(contents)| - 1]
    {
      if count == 0 {
        return ERR_AOS_EMPTY;
      }
      var lastStrSize := StringLength(count - 1);
      PackedAt(contents, count - 1);
      ghost var front := contents[..count - 1];
      assert Pack(contents) == Pack(front) + contents[count - 1] + [0];
      forall i | 0 <= i < count
        ensures Offset(front, i) == Offset(contents, i)
      {
        OffsetOfPrefix(contents, count - 1, i);
      }
      size := size - (lastStrSize + 1);
      assert data[..size] == data[..old(size)][..size];
      count := count - 1;
      contents := front;
      e := ERR_OK;
    }

    method ContainsString(needle: CString) returns (found: bool)
      requires Valid()
      ensures found <==> needle in contents
    {
      var i := 0;
      while i < count
        invariant 0 <= i <= count
        invariant needle !in contents[..i]
      {
        var current := StringAt(i);
        if current == Some(needle) {
          return true;
        }
        i := i + 1;
      }
      found := false;
    }
  }
}
