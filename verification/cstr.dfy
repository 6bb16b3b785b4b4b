/**
  The `str_t` variant (src/c-string.c): construction, destruction, data
  access, comparison and find-and-replace-all, each reporting a status.
  Pointers the caller passes are `Option`s (`None` is NULL); allocation
  failure is a parameter.

  `Replace` is the corrected operation: it builds the result from the
  original content, sizes the block so the terminator always fits, and
  stores the new length and capacity.  `ReplaceAsWritten` records what the
  source does instead.
 */
module CStr {
  import opened Buffer
  import Growth
  import Matching

  /**
    The status codes of the source, plus `EmptyPattern`, which the corrected
    `Replace` reports where the source's scan never terminates.
   */
  datatype Status = Success | AllocFailure | ReallocFailure | NotEmpty | NullPtr | EmptyPattern

  /** A valid value or NULL. */
  predicate ValidHandle(h: Option<State>) {
    h.Some? ==> Valid(h.value)
  }

  /** A C string argument: NULL or a NUL-free sequence. */
  predicate CArg(p: Option<seq<char>>) {
    p.Some? ==> NoNul(p.value)
  }

  /**
    `str_new_from` sizes the block as written: `len < 128 ? len * 2 :
    len * 1.5`, the same doubling-then-half rule as `string_t`'s growth step.
    For the empty string that is a zero-byte block, into which `strcpy`
    still writes the terminator.
   */
  function NewFromCapacityAsWritten(len: nat): (r: nat)
    ensures 0 < len ==> len < r <= 2 * len
    ensures len == 0 ==> r == 0
    ensures len < Growth.TaperThreshold ==> r == 2 * len
    ensures Growth.TaperThreshold <= len ==> r == len + len / 2
  {
    Growth.GrowStep(len)
  }

  /** The corrected size: as written, except that the empty string gets the default block. */
  function NewFromCapacity(len: nat): (r: nat)
    ensures len < r
    ensures 0 < len ==> r == NewFromCapacityAsWritten(len)
    ensures len == 0 ==> r == DefaultCapacity
  {
    if len == 0 then DefaultCapacity else Growth.GrowStep(len)
  }

  /** `str_new`: refuses a handle that is already set; otherwise an empty value of the default capacity. */
  function StrNew(handle: Option<State>, allocOk: bool): (r: (Status, Option<State>))
    ensures handle.Some? ==> r == (NotEmpty, handle)
    ensures handle.None? && !allocOk ==> r == (AllocFailure, None)
    ensures handle.None? && allocOk ==> r.0 == Success && r.1.Some?
    ensures r.0 == Success ==> r.1 == Some(State([], 0, DefaultCapacity)) && Valid(r.1.value)
  {
    if handle.Some? then (NotEmpty, handle)
    else if !allocOk then (AllocFailure, None)
    else (Success, Some(State([], 0, DefaultCapacity)))
  }

  /** `str_new_from`: refuses a set handle, then a NULL source; otherwise a copy of the source. */
  function StrNewFrom(handle: Option<State>, src: Option<seq<char>>, allocOk: bool): (r: (Status, Option<State>))
    requires CArg(src)
    ensures handle.Some? ==> r == (NotEmpty, handle)
    ensures handle.None? && src.None? ==> r == (NullPtr, None)
    ensures handle.None? && src.Some? && !allocOk ==> r == (AllocFailure, None)
    ensures handle.None? && src.Some? && allocOk ==> r.0 == Success
    ensures r.0 == Success ==> r.1.Some? && Valid(r.1.value)
    ensures r.0 == Success ==> r.1.value.content == src.value && r.1.value.len == |src.value|
    ensures r.0 == Success ==> r.1.value.capacity == NewFromCapacity(|src.value|)
  {
    if handle.Some? then (NotEmpty, handle)
    else if src.None? then (NullPtr, None)
    else if !allocOk then (AllocFailure, None)
    else (Success, Some(State(src.value, |src.value|, NewFromCapacity(|src.value|))))
  }

  /** `str_destroy`: frees a live value and clears the handle; on a NULL handle it does nothing. */
  function StrDestroy(handle: Option<State>): (r: (Option<State>, bool))
    ensures r.0 == None
    ensures r.1 <==> handle.Some?
  {
    (None, handle.Some?)
  }

  /** Destroying twice is destroying once: the second call frees nothing. */
  lemma DestroyIdempotent(handle: Option<State>)
    ensures StrDestroy(StrDestroy(handle).0) == (None, false)
  {
  }

  /** `data`: the C string the block holds, which for a valid value is its content. */
  function Data(handle: Option<State>): (r: (Status, Option<seq<char>>))
    requires ValidHandle(handle)
    ensures handle.None? <==> r.0 == NullPtr
    ensures handle.None? ==> r.1 == None
    ensures handle.Some? ==> r == (Success, Some(handle.value.content))
  {
    if handle.None? then (NullPtr, None) else (Success, Some(UpToNul(Bytes(handle.value))))
  }

  /** `cmp`: NULL for any argument is `NullPtr`; otherwise `is_same` is byte-for-byte equality. */
  function Cmp(handle: Option<State>, src: Option<seq<char>>, isSameGiven: bool): (r: (Status, Option<bool>))
    requires ValidHandle(handle) && CArg(src)
    ensures r.0 == NullPtr <==> handle.None? || src.None? || !isSameGiven
    ensures r.0 != NullPtr ==> r == (Success, Some(handle.value.content == src.value))
    ensures r.0 == NullPtr ==> r.1 == None
  {
    if handle.None? || src.None? || !isSameGiven then (NullPtr, None)
    else (Success, Some(UpToNul(Bytes(handle.value)) == src.value))
  }

  /** What a new value reads back as: construction and `data` round-trip. */
  lemma NewFromThenData(src: seq<char>)
    requires NoNul(src)
    ensures Data(StrNewFrom(None, Some(src), true).1) == (Success, Some(src))
    ensures Cmp(StrNewFrom(None, Some(src), true).1, Some(src), true) == (Success, Some(true))
  {
  }

  /**
    `str_new_from("Some text")` gets 2 · 9 = 18 bytes; the unit test at
    tests/unit_test.c:79-87 expects 9 · 1.5 = 13.
   */
  lemma NewFromSomeText()
    ensures StrNewFrom(None, Some("Some text"), true).1.value.capacity == 18
  {
  }

  /**
    The capacity `replace` gives a result of `newLen` bytes, with the growth
    guard corrected to leave room for the terminator: grow to the slack of
    `newLen + 1` when the block cannot hold the result and its terminator,
    else halve once when `newLen + 1` is under half the block.
   */
  function ReplaceCapacity(newLen: nat, cap: nat): (r: nat)
    ensures newLen < r
    ensures cap <= newLen ==> r == Growth.GrowStep(newLen + 1)
    ensures newLen < cap ==> (r == cap / 2 <==> newLen + 1 < cap / 2) && (r == cap || r == cap / 2)
  {
    if cap <= newLen then Growth.GrowStep(newLen + 1)
    else if newLen + 1 < cap / 2 then cap / 2
    else cap
  }

  /** The capacity computation of `replace` as written: it grows only when `newLen > cap`. */
  function ReplaceCapacityAsWritten(newLen: nat, cap: nat): (r: nat)
    ensures newLen != cap ==> r == ReplaceCapacity(newLen, cap)
    ensures newLen == cap ==> r == cap
  {
    if newLen > cap then Growth.GrowStep(newLen + 1)
    else if newLen < cap && newLen + 1 < cap / 2 then cap / 2
    else cap
  }

  /**
    `replace`, corrected.  NULL for any argument is `NullPtr`; an empty
    pattern is `EmptyPattern`; a failed realloc is `ReallocFailure`, and in
    each of these the handle is untouched.  Otherwise the content becomes
    the leftmost, non-overlapping replacement of the original content, and
    the stored length and capacity follow it.
   */
  function Replace(handle: Option<State>, oldStr: Option<seq<char>>, newStr: Option<seq<char>>, reallocOk: bool): (r: (Status, Option<State>))
    requires ValidHandle(handle) && CArg(oldStr) && CArg(newStr)
    ensures r.0 == NullPtr <==> handle.None? || oldStr.None? || newStr.None?
    ensures r.0 == EmptyPattern <==> handle.Some? && oldStr.Some? && newStr.Some? && oldStr.value == []
    ensures r.0 != Success ==> r.1 == handle
    ensures r.0 == ReallocFailure ==> !reallocOk
    ensures r.0 == Success ==> r.1.Some? && Valid(r.1.value)
    ensures r.0 == Success ==> r.1.value.content == Matching.ReplaceAll(handle.value.content, oldStr.value, newStr.value)
    ensures r.0 == Success ==> r.1.value.capacity == ReplaceCapacity(r.1.value.len, handle.value.capacity)
    ensures reallocOk && handle.Some? && oldStr.Some? && newStr.Some? && oldStr.value != [] ==> r.0 == Success
    ensures handle.Some? && oldStr.Some? && newStr.Some? && oldStr.value != [] ==>
      (r.0 == Success || r.0 == ReallocFailure) &&
      (r.0 == ReallocFailure <==>
        !reallocOk && ReplaceCapacity(|Matching.ReplaceAll(handle.value.content, oldStr.value, newStr.value)|, handle.value.capacity) != handle.value.capacity)
  {
    if handle.None? || oldStr.None? || newStr.None? then (NullPtr, handle)
    else if oldStr.value == [] then (EmptyPattern, handle)
    else
      var s := handle.value;
      var result := Matching.ReplaceAll(s.content, oldStr.value, newStr.value);
      var cap := ReplaceCapacity(|result|, s.capacity);
      if cap != s.capacity && !reallocOk then (ReallocFailure, handle)
      else
        Matching.ReplaceAllNoNul(s.content, oldStr.value, newStr.value);
        (Success, Some(State(result, |result|, cap)))
  }

  /** The stored length of a replacement is len − k·|old| + k·|new|, k the number of matches. */
  lemma ReplaceLength(s: State, oldStr: seq<char>, newStr: seq<char>)
    requires Valid(s) && NoNul(oldStr) && NoNul(newStr) && oldStr != []
    ensures Replace(Some(s), Some(oldStr), Some(newStr), true).0 == Success
    ensures var k := Matching.CountMatches(s.content, oldStr);
      Replace(Some(s), Some(oldStr), Some(newStr), true).1.value.len == s.len - k * |oldStr| + k * |newStr|
  {
    Matching.ReplaceAllLength(s.content, oldStr, newStr);
  }

  /** When `old` does not occur, the content and length stay as they were; the block may only halve. */
  lemma ReplaceAbsent(s: State, oldStr: seq<char>, newStr: seq<char>, reallocOk: bool)
    requires Valid(s) && NoNul(oldStr) && NoNul(newStr) && oldStr != []
    requires !Matching.Occurs(oldStr, s.content)
    ensures var r := Replace(Some(s), Some(oldStr), Some(newStr), reallocOk);
      r.1.value.content == s.content && r.1.value.len == s.len
      && (r.1.value.capacity == s.capacity || r.1.value.capacity == s.capacity / 2)
  {
    Matching.ReplaceAllAbsent(s.content, oldStr, newStr);
  }

  /** The unit test of `replace` (tests/unit_test.c:59-64), including the capacity it leaves. */
  lemma ReplaceUnitTest()
    ensures var src := "Some long and " + "interesting" + " text with long and " + "interesting" + " words";
      && NoNul(src)
      && var h := StrNewFrom(None, Some(src), true).1;
      && h.value.capacity == 124
      && var r := Replace(h, Some("interesting"), Some("fun"), true);
      && r.0 == Success
      && r.1.value.content == "Some long and " + "fun" + " text with long and " + "fun" + " words"
      && r.1.value.len == 46
      && r.1.value.capacity == 62
  {
    var src := "Some long and " + "interesting" + " text with long and " + "interesting" + " words";
    var out := "Some long and " + "fun" + " text with long and " + "fun" + " words";
    assert |src| == 62 && |out| == 46;
    assert NoNul(src);
    var h := StrNewFrom(None, Some(src), true).1;
    assert h == Some(State(src, 62, 124));
    Matching.InterestingToFun();
    assert Matching.ReplaceAll(src, "interesting", "fun") == out;
    assert ReplaceCapacity(46, 124) == 62;
  }

  // ---------------------------------------------------------------------
  // `replace` as written

  /**
    Where the counting loop of `replace` resumes after a match at `i`:
    `i += strlen(old_str) - 1` in `unsigned long` arithmetic, then `i++`.
    With an empty pattern that is `i` again.
   */
  function ScanNextAsWritten(i: nat, patLen: nat): (r: nat)
    requires i + patLen < ULongModulus
    ensures 0 < patLen ==> r == i + patLen
    ensures patLen == 0 ==> r == i
  {
    (i + ULongSub(patLen, 1) + 1) % ULongModulus
  }

  /** With an empty pattern, every position matches and the scan stays where it is. */
  lemma EmptyPatternStalls(s: State, i: nat)
    requires Valid(s) && i < |s.content| && s.len < ULongModulus
    ensures Matching.StartsWith(s.content[i..], [])
    ensures ScanNextAsWritten(i, 0) == i
    ensures Replace(Some(s), Some([]), Some([]), true).0 == EmptyPattern
  {
  }

  /**
    What `replace` leaves behind as written: the length and capacity still
    stored in the struct, whether `_realloc` ran (after which the `data`
    pointer captured at the top of the function may be stale), the size of
    the block after it, and how many bytes are read and written through the
    captured pointer.
   */
  datatype ReplaceEffect = ReplaceEffect(
    storedLen: nat, storedCapacity: nat, resized: bool, block: nat, readBytes: nat, writtenBytes: nat)

  function ReplaceAsWritten(s: State, oldStr: seq<char>, newStr: seq<char>): (e: ReplaceEffect)
    requires Valid(s) && NoNul(oldStr) && NoNul(newStr) && oldStr != []
    ensures var c := Replace(Some(s), Some(oldStr), Some(newStr), true).1.value;
      && e.storedLen == s.len && e.storedCapacity == s.capacity
      && e.writtenBytes == c.len + 1
      && (c.len != s.capacity ==> e.block == c.capacity)
      && (c.len == s.capacity ==> !e.resized && e.block < e.writtenBytes)
      && e.readBytes == |s.content| + 1
  {
    var newLen := |Matching.ReplaceAll(s.content, oldStr, newStr)|;
    var cap := ReplaceCapacityAsWritten(newLen, s.capacity);
    ReplaceEffect(s.len, s.capacity, cap != s.capacity, cap, s.len + 1, newLen + 1)
  }

  /** Whenever the length changes, the length left in the struct is no longer the content's. */
  lemma ReplaceAsWrittenKeepsOldLength(s: State, oldStr: seq<char>, newStr: seq<char>)
    requires Valid(s) && NoNul(oldStr) && NoNul(newStr) && oldStr != []
    requires Matching.CountMatches(s.content, oldStr) > 0 && |oldStr| != |newStr|
    ensures ReplaceAsWritten(s, oldStr, newStr).storedLen != ReplaceAsWritten(s, oldStr, newStr).writtenBytes - 1
  {
    Matching.ReplaceAllLength(s.content, oldStr, newStr);
    var k := Matching.CountMatches(s.content, oldStr);
    MulDiffers(k, |oldStr|, |newStr|);
  }

  lemma MulDiffers(k: nat, a: nat, b: nat)
    requires 0 < k && a != b
    ensures k * a != k * b
  {
    if a < b {
      assert k * b == k * a + k * (b - a);
    } else {
      assert k * a == k * b + k * (a - b);
    }
  }

  /** When the block is halved below the original data, the source is read past the halved block. */
  lemma ReplaceAsWrittenReadsPastBlock(s: State, oldStr: seq<char>, newStr: seq<char>)
    requires Valid(s) && NoNul(oldStr) && NoNul(newStr) && oldStr != []
    requires ReplaceAsWritten(s, oldStr, newStr).block == s.capacity / 2 < s.capacity
    requires s.capacity / 2 <= s.len
    ensures ReplaceAsWritten(s, oldStr, newStr).resized
    ensures ReplaceAsWritten(s, oldStr, newStr).block < ReplaceAsWritten(s, oldStr, newStr).readBytes
  {
  }

  /** A result exactly as long as the block is written with its terminator one byte past it. */
  lemma ReplaceAsWrittenOverflows(s: State, oldStr: seq<char>, newStr: seq<char>)
    requires Valid(s) && NoNul(oldStr) && NoNul(newStr) && oldStr != []
    requires |Matching.ReplaceAll(s.content, oldStr, newStr)| == s.capacity
    ensures !ReplaceAsWritten(s, oldStr, newStr).resized
    ensures ReplaceAsWritten(s, oldStr, newStr).block < ReplaceAsWritten(s, oldStr, newStr).writtenBytes
  {
  }

  /** `str_new_from("ab")` then `replace("a", "abc")`: a 4-byte result, 5 bytes written into 4. */
  lemma ReplaceAsWrittenOverflowExample()
    ensures var h := StrNewFrom(None, Some("ab"), true).1;
      && h.value.capacity == 4
      && Matching.ReplaceAll("ab", "a", "abc") == "abcb"
      && ReplaceAsWritten(h.value, "a", "abc").writtenBytes == 5
      && ReplaceAsWritten(h.value, "a", "abc").block == 4
      && Replace(h, Some("a"), Some("abc"), true).1.value.capacity == 10
  {
    Matching.ReplaceAllMatch("b", "a", "abc");
    assert "ab" == "a" + "b";
    assert Matching.ReplaceAll("b", "a", "abc") == "b";
  }

  /**
    The unit test of `replace` as written: the struct keeps length 62, the
    block is halved to 62 bytes by `_realloc`, and the 63 bytes of the
    original data are then read through the pointer captured before it.
   */
  lemma ReplaceAsWrittenUnitTest()
    ensures var src := "Some long and " + "interesting" + " text with long and " + "interesting" + " words";
      && NoNul(src)
      && var e := ReplaceAsWritten(StrNewFrom(None, Some(src), true).1.value, "interesting", "fun");
      && e.storedLen == 62 && e.writtenBytes == 47
      && e.resized && e.block == 62 && e.readBytes == 63
  {
    var src := "Some long and " + "interesting" + " text with long and " + "interesting" + " words";
    var out := "Some long and " + "fun" + " text with long and " + "fun" + " words";
    assert |src| == 62 && |out| == 46;
    assert NoNul(src);
    var h := StrNewFrom(None, Some(src), true).1;
    assert h == Some(State(src, 62, 124));
    Matching.InterestingToFun();
    assert Matching.ReplaceAll(src, "interesting", "fun") == out;
    assert ReplaceCapacityAsWritten(46, 124) == 62;
  }
}
