/**
  The abstract state shared by both string variants of the repository:
  the bytes before the terminating NUL, the tracked length and the size of
  the allocated block.  Both `string_t` (src/string.c) and `str_t`
  (src/c-string.c) keep exactly these three fields behind their private
  pointer.
 */
module Buffer {

  /** Initial capacity of an empty value and shrink floor of `string_t`. */
  const DefaultCapacity: nat := 16

  /** The NUL byte that terminates the data in the C buffer. */
  const Nul: char := '\0'

  /** Largest value of a C `unsigned long`, plus one. */
  const ULongModulus: nat := 0x1_0000_0000_0000_0000

  /** A C string argument: built with `strlen`/`strcpy`, so it holds no NUL. */
  predicate NoNul(s: seq<char>) {
    forall i :: 0 <= i < |s| ==> s[i] != Nul
  }

  datatype State = State(content: seq<char>, len: nat, capacity: nat)

  /**
    What a well-formed value promises: the tracked length is the length of
    the content, and the block has room for the content plus the terminator.
   */
  predicate Valid(s: State) {
    && s.len == |s.content|
    && s.len < s.capacity
    && NoNul(s.content)
  }

  /** The bytes actually held in the block: content followed by the terminator. */
  function Bytes(s: State): (b: seq<char>)
    ensures |b| == |s.content| + 1
    ensures b[|s.content|] == Nul
    ensures b[..|s.content|] == s.content
  {
    s.content + [Nul]
  }

  /** C `unsigned long` subtraction, which wraps around below zero. */
  function ULongSub(a: nat, b: nat): (r: nat)
    requires a < ULongModulus && b < ULongModulus
    ensures r < ULongModulus
    ensures b <= a ==> r == a - b
    ensures a < b ==> r == ULongModulus + a - b
  {
    (a - b) % ULongModulus
  }

  lemma NoNulAppend(a: seq<char>, b: seq<char>)
    requires NoNul(a) && NoNul(b)
    ensures NoNul(a + b)
  {
    assert forall i :: 0 <= i < |a + b| ==> (a + b)[i] == (if i < |a| then a[i] else b[i - |a|]);
  }

  datatype Option<T> = None | Some(value: T)

  /** What `strlen`/`strcpy` see in a block: the bytes before the first NUL. */
  function UpToNul(b: seq<char>): (r: seq<char>)
    ensures |r| <= |b| && r == b[..|r|]
    ensures NoNul(r)
    ensures |r| < |b| ==> b[|r|] == Nul
  {
    if |b| == 0 || b[0] == Nul then [] else [b[0]] + UpToNul(b[1..])
  }
}
