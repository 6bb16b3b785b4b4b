/**
  The `string_t` variant (src/string.c): a growable byte string with
  concatenation, push/pop, indexed access and update, removal and slicing.
  Every operation takes a live value (the source's early `return -1` on a
  NULL `self` is not modelled) and returns a new one; allocation failure is
  a parameter.

  The operations here are the corrected ones the rest of the model uses.
  The members named `...AsWritten` reproduce the source where it goes wrong:
  `push` writes its terminator one byte past a full block, `pop`, `at` and
  `slice` compute `len - 1` on an unsigned length, and the resize helpers
  record a capacity before knowing realloc succeeded.
 */
module DynString {
  import opened Buffer
  import Growth

  /** The source reports every one of these as `-1`, which for `at` and `pop` is also a valid byte. */
  datatype Error = AllocFailure | Underflow | IndexOutOfRange

  datatype Result<T> = Ok(value: T) | Err(error: Error)

  /** An empty value with the default capacity; `create_string` yields NULL when allocation fails. */
  function Create(allocOk: bool): (r: Option<State>)
    ensures allocOk <==> r.Some?
    ensures r.Some? ==> Valid(r.value) && r.value.content == [] && r.value.capacity == DefaultCapacity
  {
    if allocOk then Some(State([], 0, DefaultCapacity)) else None
  }

  /** A copy of `src`, in a block of exactly `|src| + 1` bytes. */
  function CreateFrom(src: seq<char>, allocOk: bool): (r: Option<State>)
    requires NoNul(src)
    ensures allocOk <==> r.Some?
    ensures r.Some? ==> Valid(r.value) && r.value.content == src && r.value.capacity == |src| + 1
  {
    if allocOk then Some(State(src, |src|, |src| + 1)) else None
  }

  /**
    `destroy_string` takes the address of the handle: `slot` is None for a NULL
    address, `Some(None)` for a NULL handle. Only a live value is freed, and its
    handle is cleared; both NULL cases are no-ops.
   */
  function Destroy(slot: Option<Option<State>>): (r: (Option<Option<State>>, bool))
    ensures r.1 <==> slot.Some? && slot.value.Some?
    ensures r.0 == if r.1 then Some(None) else slot
  {
    match slot
    case None => (None, false)
    case Some(handle) => (Some(None), handle.Some?)
  }

  /** A second `destroy_string` through the same address frees nothing and leaves the handle NULL. */
  lemma DestroyTwice(slot: Option<Option<State>>)
    ensures !Destroy(Destroy(slot).0).1
    ensures Destroy(Destroy(slot).0).0 == Destroy(slot).0
    ensures slot.Some? ==> Destroy(slot).0 == Some(None)
  {
  }

  /** `cstring`: the bytes up to the first NUL of the block, which for a valid value is its content. */
  function Cstring(s: State): (r: seq<char>)
    requires Valid(s)
    ensures r == s.content
  {
    UpToNul(Bytes(s))
  }

  /** `len` and `capacity`: the tracked counters (the `(int)` casts are not modelled). */
  function Len(s: State): (r: int)
    requires Valid(s)
    ensures r == |s.content|
  {
    s.len
  }

  function Capacity(s: State): (r: int)
    requires Valid(s)
    ensures r > |s.content|
  {
    s.capacity
  }

  /** The capacity `cat` leaves for `need` bytes including the terminator. */
  function CatCapacity(s: State, need: nat): nat
    requires 0 < s.capacity
  {
    if s.capacity < need then Growth.Expand(s.capacity, need) else s.capacity
  }

  /**
    `cat`: append `src`.  When the block is too small for the content, `src`
    and the terminator, it grows by the growth policy; if that fails, the
    value is left as it was.
   */
  function Cat(s: State, src: seq<char>, reallocOk: bool): (r: Result<State>)
    requires Valid(s) && NoNul(src)
    ensures r.Ok? <==> reallocOk || |s.content| + |src| + 1 <= s.capacity
    ensures r.Err? ==> r.error == AllocFailure
    ensures r.Ok? ==> Valid(r.value)
    ensures r.Ok? ==> r.value.content == s.content + src && r.value.len == s.len + |src|
    ensures r.Ok? ==> r.value.capacity == CatCapacity(s, |s.content| + |src| + 1)
    ensures r.Ok? ==> s.capacity <= r.value.capacity
  {
    var need := s.len + |src| + 1;
    if s.capacity < need && !reallocOk then Err(AllocFailure)
    else
      NoNulAppend(s.content, src);
      Ok(State(s.content + src, s.len + |src|, CatCapacity(s, need)))
  }

  /**
    `push`, with the terminator accounted for: the block grows when it
    cannot hold the content, the new byte and the terminator.
   */
  function Push(s: State, c: char, reallocOk: bool): (r: Result<State>)
    requires Valid(s) && c != Nul
    ensures r.Ok? <==> reallocOk || |s.content| + 2 <= s.capacity
    ensures r.Err? ==> r.error == AllocFailure
    ensures r.Ok? ==> Valid(r.value) && r.value.content == s.content + [c] && r.value.len == s.len + 1
  {
    var need := s.len + 2;
    if s.capacity < need && !reallocOk then Err(AllocFailure)
    else
      NoNulAppend(s.content, [c]);
      Ok(State(s.content + [c], s.len + 1, CatCapacity(s, need)))
  }

  /** The capacity after removing one byte: halved when the shrink policy says so and realloc succeeds. */
  function ShrunkCapacity(newLen: nat, c: nat, reallocOk: bool): (r: nat)
    ensures newLen < c ==> newLen < r
    ensures r == c || (reallocOk && r == Growth.Shrink(newLen, c))
    ensures reallocOk ==> r == Growth.Shrink(newLen, c)
    ensures !reallocOk ==> r == c
  {
    if reallocOk then Growth.Shrink(newLen, c) else c
  }

  /**
    `pop`: remove and return the last byte, then apply the shrink policy.
    An empty value reports `Underflow`.  A failed shrink keeps the old
    block, which still holds the shorter content.
   */
  function Pop(s: State, reallocOk: bool): (r: Result<(char, State)>)
    requires Valid(s)
    ensures r.Err? <==> s.content == []
    ensures r.Err? ==> r.error == Underflow
    ensures r.Ok? ==> r.value.0 == s.content[|s.content| - 1]
    ensures r.Ok? ==> Valid(r.value.1) && r.value.1.content + [r.value.0] == s.content
    ensures r.Ok? ==> r.value.1.len + 1 == s.len
    ensures r.Ok? ==> r.value.1.capacity == ShrunkCapacity(s.len - 1, s.capacity, reallocOk)
  {
    if s.len == 0 then Err(Underflow)
    else
      var last := s.content[s.len - 1];
      var rest := s.content[..s.len - 1];
      assert rest + [last] == s.content;
      Ok((last, State(rest, s.len - 1, ShrunkCapacity(s.len - 1, s.capacity, reallocOk))))
  }

  /**
    `remove_at`: an index at or past the length reports `IndexOutOfRange`
    and changes nothing; otherwise the byte goes, the rest shifts left and
    the shrink policy applies.
   */
  function RemoveAt(s: State, index: nat, reallocOk: bool): (r: Result<State>)
    requires Valid(s)
    ensures r.Err? <==> |s.content| <= index
    ensures r.Err? ==> r.error == IndexOutOfRange
    ensures r.Ok? ==> Valid(r.value) && r.value.len + 1 == s.len
    ensures r.Ok? ==> r.value.content == s.content[..index] + s.content[index + 1..]
    ensures r.Ok? ==> r.value.capacity == ShrunkCapacity(s.len - 1, s.capacity, reallocOk)
  {
    if s.len <= index then Err(IndexOutOfRange)
    else
      var rest := s.content[..index] + s.content[index + 1..];
      assert forall k :: 0 <= k < |rest| ==> rest[k] == s.content[if k < index then k else k + 1];
      Ok(State(rest, s.len - 1, ShrunkCapacity(s.len - 1, s.capacity, reallocOk)))
  }

  /**
    The shifting loop of `remove_at` on the block's bytes: each byte from
    `index` on takes the value of its right neighbour, up to and including
    the terminator.
   */
  method ShiftLeft(bytes: seq<char>, len: nat, index: nat) returns (out: seq<char>)
    requires index < len < |bytes| && bytes[len] == Nul
    ensures |out| == |bytes|
    ensures out[..len] == bytes[..index] + bytes[index + 1..len + 1]
    ensures out[len - 1] == Nul
    ensures out[len..] == bytes[len..]
  {
    out := bytes;
    var i := index;
    while i < len
      invariant index <= i <= len
      invariant |out| == |bytes|
      invariant forall k :: 0 <= k < index ==> out[k] == bytes[k]
      invariant forall k :: index <= k < i ==> out[k] == bytes[k + 1]
      invariant forall k :: i <= k < |bytes| ==> out[k] == bytes[k]
    {
      out := out[i := out[i + 1]];
      i := i + 1;
    }
    assert out[..len] == bytes[..index] + bytes[index + 1..len + 1];
  }

  /** `remove_at` on the block's bytes leaves exactly the bytes of the new value. */
  method RemoveAtBytes(s: State, index: nat) returns (out: seq<char>)
    requires Valid(s) && index < s.len
    ensures RemoveAt(s, index, false).Ok?
    ensures |out| == s.len + 1
    ensures out[..s.len] == Bytes(RemoveAt(s, index, false).value)
  {
    out := ShiftLeft(Bytes(s), s.len, index);
    var b := Bytes(s);
    assert b[..index] == s.content[..index];
    assert b[index + 1..s.len + 1] == s.content[index + 1..] + [Nul];
  }

  /**
    `set`: an index at or past the length reports `IndexOutOfRange`;
    otherwise only that byte changes.
   */
  function Set(s: State, index: nat, c: char): (r: Result<State>)
    requires Valid(s) && c != Nul
    ensures r.Err? <==> |s.content| <= index
    ensures r.Err? ==> r.error == IndexOutOfRange
    ensures r.Ok? ==> Valid(r.value)
    ensures r.Ok? ==> r.value.len == s.len && r.value.capacity == s.capacity
    ensures r.Ok? ==> |r.value.content| == |s.content| && r.value.content[index] == c
    ensures r.Ok? ==> forall k :: 0 <= k < |s.content| && k != index ==> r.value.content[k] == s.content[k]
  {
    if s.len <= index then Err(IndexOutOfRange)
    else Ok(State(s.content[index := c], s.len, s.capacity))
  }

  /** `at`, with the bound checked against the length. */
  function At(s: State, index: nat): (r: Result<char>)
    requires Valid(s)
    ensures r.Ok? <==> index < |s.content|
    ensures r.Ok? ==> r.value == s.content[index]
    ensures r.Err? ==> r.error == IndexOutOfRange
  {
    if index < s.len then Ok(s.content[index]) else Err(IndexOutOfRange)
  }

  /** `slice`: the inclusive range `first..last`, when it lies inside the content. */
  function Slice(s: State, first: nat, last: nat): (r: Result<seq<char>>)
    requires Valid(s)
    ensures r.Ok? <==> first <= last < |s.content|
    ensures r.Ok? ==> |r.value| == last - first + 1
    ensures r.Ok? ==> forall k :: 0 <= k < |r.value| ==> r.value[k] == s.content[first + k]
    ensures r.Err? ==> r.error == IndexOutOfRange
  {
    if first <= last < s.len then Ok(s.content[first..last + 1]) else Err(IndexOutOfRange)
  }

  // ---------------------------------------------------------------------
  // Properties relating the operations

  /** `push` of one byte is `cat` of a one-byte string. */
  lemma PushIsCatOfOne(s: State, c: char, reallocOk: bool)
    requires Valid(s) && c != Nul
    ensures NoNul([c])
    ensures Push(s, c, reallocOk) == Cat(s, [c], reallocOk)
  {
  }

  /** `push` then `pop` returns the pushed byte and restores the content and length. */
  lemma PushThenPop(s: State, c: char, growOk: bool, shrinkOk: bool)
    requires Valid(s) && c != Nul
    requires Push(s, c, growOk).Ok?
    ensures Pop(Push(s, c, growOk).value, shrinkOk).Ok?
    ensures Pop(Push(s, c, growOk).value, shrinkOk).value.0 == c
    ensures Pop(Push(s, c, growOk).value, shrinkOk).value.1.content == s.content
    ensures Pop(Push(s, c, growOk).value, shrinkOk).value.1.len == s.len
  {
    var p := Push(s, c, growOk).value;
    assert p.content[|p.content| - 1] == c;
    assert p.content[..|p.content| - 1] == s.content;
  }

  /** Appending `a` then `b` gives the content of appending `a + b`. */
  lemma CatAssociative(s: State, a: seq<char>, b: seq<char>)
    requires Valid(s) && NoNul(a) && NoNul(b)
    ensures NoNul(a + b)
    ensures Cat(s, a, true).Ok? && Cat(Cat(s, a, true).value, b, true).Ok? && Cat(s, a + b, true).Ok?
    ensures Cat(Cat(s, a, true).value, b, true).value.content == Cat(s, a + b, true).value.content
  {
    NoNulAppend(a, b);
    assert s.content + a + b == s.content + (a + b);
  }

  /** Building from `a` and appending `b` gives the content of building from `a + b`. */
  lemma CreateFromThenCat(a: seq<char>, b: seq<char>)
    requires NoNul(a) && NoNul(b)
    ensures NoNul(a + b)
    ensures Cstring(Cat(CreateFrom(a, true).value, b, true).value) == Cstring(CreateFrom(a + b, true).value)
  {
    NoNulAppend(a, b);
  }

  /** After `set(i, c)`, `at(i)` reads `c` and every other index reads what it read before. */
  lemma SetThenAt(s: State, index: nat, c: char, other: nat)
    requires Valid(s) && c != Nul && index < |s.content|
    ensures At(Set(s, index, c).value, index) == Ok(c)
    ensures other != index ==> At(Set(s, index, c).value, other) == At(s, other)
  {
  }

  /** The whole content is the slice from the first to the last index. */
  lemma SliceWhole(s: State)
    requires Valid(s) && 0 < |s.content|
    ensures Slice(s, 0, |s.content| - 1) == Ok(s.content)
  {
    assert s.content[0..|s.content|] == s.content;
  }

  /** The sequence of calls in tests/system/system_test.c:29-53. */
  lemma SystemTest()
    ensures var s := CreateFrom("Some text", true).value;
      && Slice(s, 1, 3) == Ok("ome")
      && At(s, 2) == Ok('m')
      && Len(s) == 9 && Capacity(s) == 10
      && Pop(s, true).Ok? && Pop(s, true).value.0 == 't'
      && var s1 := Pop(s, true).value.1;
      && Len(s1) == 8
      && Cat(s1, "text", true).Ok?
      && var s2 := Cat(s1, "text", true).value;
      && Cstring(s2) == "Some textext"
      && Push(s2, '!', true).Ok?
      && var s3 := Push(s2, '!', true).value;
      && Cstring(s3) == "Some textext!"
      && RemoveAt(s3, 4, true).Ok?
      && var s4 := RemoveAt(s3, 4, true).value;
      && Cstring(s4) == "Sometextext!"
      && Set(s4, 2, 'o').Ok?
      && Cstring(Set(s4, 2, 'o').value) == "Sooetextext!"
  {
    var s := CreateFrom("Some text", true).value;
    assert s.content[1..4] == "ome";
    var s1 := Pop(s, true).value.1;
    assert s1.content == "Some tex";
    var s2 := Cat(s1, "text", true).value;
    assert s2.content == "Some textext";
    var s3 := Push(s2, '!', true).value;
    assert s3.content == "Some textext!";
    var s4 := RemoveAt(s3, 4, true).value;
    assert s4.content == "Sometextext!";
    assert s4.content[2 := 'o'] == "Sooetextext!";
  }

  // ---------------------------------------------------------------------
  // The source as written, where it departs from the operations above

  /** A `string_t` as `push` can leave it: the length may reach the capacity. */
  predicate Reachable(s: State) {
    s.len == |s.content| && s.len <= s.capacity && 0 < s.capacity && NoNul(s.content)
  }

  /** The value after the source's `push` and the index it writes the terminator to. */
  datatype PushEffect = PushEffect(after: State, terminatorAt: nat)

  /**
    `push` as written: it grows only when `len + 1 > capacity`, then writes
    the terminator at `len + 1`.  On a block with exactly one free byte that
    index is the capacity itself, one past the block, and the new length
    equals the capacity.
   */
  function PushAsWritten(s: State, c: char): (e: PushEffect)
    requires Reachable(s) && c != Nul
    ensures e.after.content == s.content + [c] && e.after.len == s.len + 1
    ensures e.terminatorAt == |s.content| + 1
    ensures s.len < s.capacity ==> e.after.capacity == s.capacity
    ensures s.len < s.capacity ==> (e.terminatorAt < e.after.capacity <==> |s.content| + 2 <= s.capacity)
    ensures s.len < s.capacity ==> (Valid(e.after) <==> |s.content| + 2 <= s.capacity)
  {
    var cap := if s.len + 1 > s.capacity then Growth.Expand(s.capacity, s.len + 1) else s.capacity;
    NoNulAppend(s.content, [c]);
    PushEffect(State(s.content + [c], s.len + 1, cap), s.len + 1)
  }

  /** `create_string_from("ab")` followed by `push` writes the terminator at index 3 of a 3-byte block. */
  lemma PushAsWrittenOverruns()
    ensures PushAsWritten(CreateFrom("ab", true).value, 'c').terminatorAt == 3
    ensures PushAsWritten(CreateFrom("ab", true).value, 'c').after.capacity == 3
    ensures Push(CreateFrom("ab", true).value, 'c', true).value.capacity == 6
  {
  }

  /** The index `pop` reads as written: `len - 1` in `unsigned long`. */
  function PopIndexAsWritten(len: nat): (r: nat)
    requires len < ULongModulus
    ensures 0 < len ==> r == len - 1
    ensures len == 0 ==> r == ULongModulus - 1
  {
    ULongSub(len, 1)
  }

  /**
    On an empty value the source's `pop` reads and writes outside the block
    (undefined behaviour; `data + (2^64 - 1)` is in practice the byte just
    before it), and `p->len--` leaves a stored length of `2^64 - 1`, beyond the
    block, for every later `len`, `at` and `slice`.
   */
  lemma PopEmptyOutsideBlock(s: State)
    requires Valid(s) && s.len == 0 && s.capacity < ULongModulus
    ensures s.capacity <= PopIndexAsWritten(s.len)
    ensures ULongSub(s.len, 1) == ULongModulus - 1 && s.capacity <= ULongSub(s.len, 1)
    ensures Pop(s, true) == Err(Underflow)
  {
  }

  /**
    What `pop` and `remove_at` leave as written: the struct's fields, the
    size of the block it really owns, and whether the call returned `-1`.
   */
  datatype Removal = Removal(after: State, block: nat, failed: bool)

  /**
    `pop` as written on a non-empty value: the byte is removed and the
    length decremented before `_shrink_string_data` runs, so a failing
    realloc returns `-1` with the byte already gone and the halved
    capacity recorded for the old block.
   */
  function PopAsWritten(s: State, reallocOk: bool): (r: (char, Removal))
    requires Valid(s) && 0 < s.len
    ensures r.1.after.content + [r.0] == s.content && r.1.after.len + 1 == s.len
    ensures r.1.failed <==> !reallocOk && Growth.Shrink(s.len - 1, s.capacity) != s.capacity
    ensures !r.1.failed ==> r.1.after.capacity == r.1.block == ShrunkCapacity(s.len - 1, s.capacity, reallocOk)
    ensures r.1.failed ==> r.1.after.capacity == s.capacity / 2 && r.1.block == s.capacity
  {
    var last := s.content[s.len - 1];
    var rest := s.content[..s.len - 1];
    assert rest + [last] == s.content;
    var resize := Growth.ShrinkAsWritten(s.len - 1, s.capacity, reallocOk);
    (last, Removal(State(rest, s.len - 1, resize.recorded), resize.block, !resize.ok))
  }

  /**
    `remove_at` as written: an index at or past the length returns `-1` and
    changes nothing; otherwise the byte is removed before the shrink, which
    may fail just as in `pop`.
   */
  function RemoveAtAsWritten(s: State, index: nat, reallocOk: bool): (r: Removal)
    requires Valid(s)
    ensures s.len <= index ==> r == Removal(s, s.capacity, true)
    ensures index < s.len ==> r.after.content == s.content[..index] + s.content[index + 1..] && r.after.len + 1 == s.len
    ensures index < s.len ==> (r.failed <==> !reallocOk && Growth.Shrink(s.len - 1, s.capacity) != s.capacity)
    ensures index < s.len && r.failed ==> r.after.capacity < r.block == s.capacity
  {
    if s.len <= index then Removal(s, s.capacity, true)
    else
      var resize := Growth.ShrinkAsWritten(s.len - 1, s.capacity, reallocOk);
      Removal(State(s.content[..index] + s.content[index + 1..], s.len - 1, resize.recorded), resize.block, !resize.ok)
  }

  /** Without a failing shrink, `pop` as written and the corrected `Pop` agree. */
  lemma PopAsWrittenAgrees(s: State, reallocOk: bool)
    requires Valid(s) && 0 < s.len
    requires !PopAsWritten(s, reallocOk).1.failed
    ensures Pop(s, reallocOk) == Ok((PopAsWritten(s, reallocOk).0, PopAsWritten(s, reallocOk).1.after))
  {
  }

  /** Without a failing shrink, `remove_at` as written and the corrected `RemoveAt` agree. */
  lemma RemoveAtAsWrittenAgrees(s: State, index: nat, reallocOk: bool)
    requires Valid(s) && index < s.len
    requires !RemoveAtAsWritten(s, index, reallocOk).failed
    ensures RemoveAt(s, index, reallocOk) == Ok(RemoveAtAsWritten(s, index, reallocOk).after)
  {
  }

  /**
    When the shrink's realloc fails, `pop` as written reports failure after
    the byte is gone and records half of the block it still owns; the
    corrected `Pop` keeps that block and succeeds with the same content.
   */
  lemma PopAsWrittenFailsAfterRemoving(s: State)
    requires Valid(s) && 0 < s.len && Growth.Shrink(s.len - 1, s.capacity) != s.capacity
    ensures var (c, e) := PopAsWritten(s, false);
      && e.failed
      && e.after.content + [c] == s.content
      && e.after.capacity < e.block
      && Pop(s, false) == Ok((c, State(e.after.content, e.after.len, s.capacity)))
  {
  }

  /** `pop` of "ab" in a 64-byte block with realloc failing: `-1`, "a" left, 32 recorded for 64 bytes. */
  lemma PopAsWrittenExample()
    ensures PopAsWritten(State("ab", 2, 64), false) == ('b', Removal(State("a", 1, 32), 64, true))
    ensures Pop(State("ab", 2, 64), false) == Ok(('b', State("a", 1, 64)))
  {
    assert "ab"[..1] == "a";
  }

  /** Largest `unsigned int` plus one: the type of `at`'s index. */
  const UIntModulus: nat := 0x1_0000_0000

  /** Whether `at` as written reads the block: it rejects only `index > len - 1` in `unsigned long`. */
  function AtAcceptsAsWritten(len: nat, index: nat): (r: bool)
    requires len < ULongModulus && index < UIntModulus
    ensures 0 < len ==> (r <==> index < len)
    ensures len == 0 ==> r
  {
    !(index > ULongSub(len, 1))
  }

  /** Whether `slice` as written copies: it rejects against `max_index = len - 1` in `unsigned long`. */
  function SliceAcceptsAsWritten(len: nat, first: nat, last: nat): (r: bool)
    requires len < ULongModulus && first < ULongModulus && last < ULongModulus
    ensures 0 < len ==> (r <==> first <= last < len)
    ensures len == 0 ==> (r <==> first <= last)
  {
    var maxIndex := ULongSub(len, 1);
    !(first > maxIndex || last > maxIndex || first > last)
  }

  /** On an empty value the source's `at` and `slice` accept indices the content does not have. */
  lemma EmptyAccessAsWritten(s: State, index: nat)
    requires Valid(s) && s.len == 0 && index < UIntModulus
    ensures AtAcceptsAsWritten(s.len, index) && At(s, index) == Err(IndexOutOfRange)
    ensures SliceAcceptsAsWritten(s.len, index, index) && Slice(s, index, index) == Err(IndexOutOfRange)
  {
  }
}
