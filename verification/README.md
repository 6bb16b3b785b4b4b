# c-string in Dafny

A model of the two growable, NUL-terminated byte strings of the c-string
repository, with proofs about them:

- `string_t` (src/string.c) covers construction, `cat`, `push`, `pop`,
  `remove_at`, `set`, `at`, `slice`, the `len`/`capacity` getters,
  `cstring` and `destroy_string`. It also holds the capacity policy: growth
  by doubling below 128 bytes and then by half, and one halving when the
  content uses less than half of a block of at least 34 bytes.
- `str_t` (src/c-string.c) covers `str_new`, `str_new_from`, `str_destroy`,
  `data`, `cmp` and `replace`. `replace` does a leftmost, non-overlapping
  find-and-replace-all into a separate buffer.

Both variants come down to one abstract state, `Buffer.State(content, len,
capacity)`. `Buffer.Valid` says three things about it:

- `len` is the length of the content.
- The block has room for the content and the terminator (`len < capacity`).
- The content holds no NUL.

C strings passed in are built with `strlen`/`strcpy`, so they are modelled
as sequences without NUL.

Files:

- `buffer.dfy` (`Buffer`): the state, `Valid`, `Option`, `unsigned long`
  subtraction, and `UpToNul` (what `strlen`/`strcpy` read from a block).
- `growth.dfy` (`Growth`): `_expand_string_data` and `_shrink_string_data`.
  It has a pure `Expand`, the do-while loop `ExpandLoop` and a
  characterisation lemma. It also models both helpers as written.
- `dyn_string.dfy` (`DynString`): the `string_t` operations. They are pure
  functions returning `Result` values. The `remove_at` shifting loop is a
  method with loop invariants.
- `matching.dfy` (`Matching`): `CountMatches` and `ReplaceAll`, with their
  lemmas. `CountOccurrences` and `BuildReplacement` mirror the two scanning
  loops of `replace`.
- `cstr.dfy` (`CStr`): the `str_t` operations with their status codes.

Both variants have code that the source gets wrong. In each case the
corrected operation is the one the rest of the model uses. The source
behaviour is kept in a separate member whose name ends in `AsWritten`, and a
lemma shows the input that exposes it (see Findings).

Capacity choices the code makes:

- `create_string_from` gives capacity `|src| + 1`. `str_new_from` gives
  `2·len` below 128 and `len + len/2` from 128 on. Neither has a lower
  bound of 16.
- When a realloc fails part-way through growth in `string_t`, the passes
  that succeeded are kept.
- `replace` uses its own resizing rule: it grows to the slack of
  `len + 1`, and it halves with no lower bound.
- `replace` may halve the block even when nothing matched.
  `CStr.ReplaceAbsent` states what stays fixed in that case: the content
  and the length.
- The unit test at tests/unit_test.c:79-87 expects `str_new_from("Some
  text")` to have capacity 13. The code gives 18 (`CStr.NewFromSomeText`).

## Model

| member | source | states |
|---|---|---|
| `DynString.Create` | src/string.c:32-38 | an empty value of capacity 16; no value when allocation fails |
| `DynString.CreateFrom` | src/string.c:40-48 | content is `src`, length `|src|`, capacity `|src| + 1`, and the value is well formed |
| `DynString.Destroy` | src/string.c:81-93 | something is freed exactly when both the address and the handle are non-NULL, and then the handle becomes NULL; a NULL address or NULL handle is left as it was |
| `DynString.DestroyTwice` | src/string.c:81-93 | a second destroy through the same address frees nothing and leaves the handle NULL |
| `Buffer.UpToNul` | src/string.c:103-110 | what `strlen` measures and `strcpy` copies out of a block: a prefix of it without NUL, followed by the NUL or the end of the block |
| `DynString.Cstring` | src/string.c:103-110 | the C string copied out of a valid value is its content |
| `DynString.Len` | src/string.c:132-135 | the tracked length equals the content length |
| `DynString.Capacity` | src/string.c:137-140 | the reported capacity exceeds the content length |
| `DynString.Cat` | src/string.c:153-162 | appends `src` and adds `|src|` to the length; grows by the growth policy only when the block cannot hold content, `src` and terminator; never shrinks; on realloc failure reports an error |
| `DynString.Push` | src/string.c:164-174 | appends the byte and increments the length, keeping room for the terminator |
| `DynString.ShrunkCapacity` | src/string.c:211-220 | after removing a byte the capacity still exceeds the new length; when realloc succeeds it is exactly the shrink policy's, and when realloc fails the old block is kept |
| `DynString.Pop` | src/string.c:142-151 | on a non-empty value returns the last byte, removes it, decrements the length and applies the shrink policy; on an empty value reports underflow |
| `DynString.RemoveAt` | src/string.c:176-186 | an index at or past the length is an error and changes nothing; otherwise content is `s[..i] + s[i+1..]`, length drops by one, shrink policy applies |
| `DynString.ShiftLeft` | src/string.c:180-182 | the shifting loop leaves the bytes before the index, then the bytes after it, then the terminator |
| `DynString.RemoveAtBytes` | src/string.c:176-186 | shifting the block's bytes gives exactly the bytes of the value `RemoveAt` returns |
| `DynString.Set` | src/string.c:188-194 | an index at or past the length is an error; otherwise only that byte changes, length and capacity stay |
| `DynString.At` | src/string.c:125-130 | returns the byte at an index below the length, an error otherwise |
| `DynString.Slice` | src/string.c:112-123 | returns the inclusive range `first..last` exactly when `first <= last < len`, an error otherwise |
| `DynString.PushIsCatOfOne` | src/string.c:153-174 | `push(c)` is `cat` of the one-byte string `c` |
| `DynString.PushThenPop` | src/string.c:142-174 | `push(c)` then `pop` returns `c` and restores the content and length |
| `DynString.CatAssociative` | src/string.c:153-162 | appending `a` then `b` gives the same content as appending `a + b` |
| `DynString.CreateFromThenCat` | src/string.c:40-162 | building from `a` and appending `b` reads back like building from `a + b` |
| `DynString.SetThenAt` | src/string.c:125-194 | after `set(i, c)`, `at(i)` is `c` and every other index reads as before |
| `DynString.SliceWhole` | src/string.c:112-123 | the slice from 0 to `len - 1` is the whole content |
| `DynString.SystemTest` | tests/system/system_test.c:29-53 | the values the system test checks after slice, at, len, capacity, pop, cat, push, remove_at and set |
| `DynString.PushAsWritten` | src/string.c:164-174 | as written, `push` on a block with one free byte writes the terminator at the capacity and leaves length equal to capacity |
| `DynString.PushAsWrittenOverruns` | src/string.c:164-174 | `create_string_from("ab")` then `push` writes index 3 of a 3-byte block; the corrected push grows to 6 |
| `DynString.PopIndexAsWritten` | src/string.c:145-147 | as written, `pop` on an empty value indexes `2^64 - 1` |
| `DynString.PopEmptyOutsideBlock` | src/string.c:142-151 | that index lies outside every block (in practice it addresses the byte just before it), and the decremented stored length wraps to `2^64 - 1`, beyond the block, for every later `len`, `at` and `slice`; the corrected pop reports underflow |
| `DynString.PopAsWritten` | src/string.c:142-151 | on a non-empty value the last byte is removed and `len` decremented before the shrink; the call fails exactly when the shrink's realloc is needed and fails, and then half of the block it still owns is recorded |
| `DynString.RemoveAtAsWritten` | src/string.c:176-186 | an index at or past the length fails with nothing changed; otherwise the byte is removed before the shrink, which fails as in `pop`, recording less than the block it keeps |
| `DynString.PopAsWrittenAgrees` | src/string.c:142-151 | when the shrink does not fail, `pop` as written and the corrected `Pop` give the same byte and value |
| `DynString.RemoveAtAsWrittenAgrees` | src/string.c:176-186 | when the shrink does not fail, `remove_at` as written and the corrected `RemoveAt` give the same value |
| `DynString.PopAsWrittenFailsAfterRemoving` | src/string.c:142-151 | a failing shrink makes `pop` report failure with the byte already removed and a recorded capacity below the block; the corrected `Pop` succeeds with the same content and the old block |
| `DynString.PopAsWrittenExample` | src/string.c:142-151 | `pop` of `"ab"` in a 64-byte block with realloc failing returns failure, leaves `"a"` and records 32 for 64 bytes |
| `DynString.AtAcceptsAsWritten` | src/string.c:125-130 | as written, `at` accepts exactly the indices below a non-zero length, and every index on an empty value |
| `DynString.SliceAcceptsAsWritten` | src/string.c:112-116 | as written, `slice` accepts `first <= last < len` for non-zero length, and every `first <= last` on an empty value |
| `DynString.EmptyAccessAsWritten` | src/string.c:112-130 | on an empty value the source's `at` and `slice` accept an index the corrected ones reject |
| `Growth.GrowStep` | src/string.c:199-203 | one growth step strictly increases a non-zero capacity, by at most double: exactly `2·c` below 128 and exactly `c + ⌊c/2⌋` from 128 on (the float bound is under Left out) |
| `Growth.Expand` | src/string.c:196-209 | the final capacity reaches `min`, exceeds the old one, stays under `2·min` when growth was needed, and is one step when it was not |
| `Growth.ExpandIsFirstReaching` | src/string.c:196-209 | `Expand` is the first iterate, after at least one step, that reaches `min` |
| `Growth.ExpandLoop` | src/string.c:198-207 | the do-while loop stops at the first iterate reaching `min`, which is `Expand` |
| `Growth.Shrink` | src/string.c:211-220 | halves at most once, exactly when `len < cap/2` and `cap/2 > 16`; keeps `len < capacity`; a halved capacity stays above 16 |
| `Growth.ShrinkFloor` | src/string.c:213 | a block of at most 33 bytes is never halved |
| `Growth.GrowthFromDefault` | tests/unit/unit_tests.c:131-166 | the growth sequence 16, 32, 64, 128, 192, 288 |
| `Growth.ShrinkFrom192` | tests/unit/unit_tests.c:168-187 | the shrink sequence 192, 96, 48, 24, then staying at 24 |
| `Growth.ExpandAsWritten` | src/string.c:196-209 | with every realloc succeeding it is `Expand`; after a failed realloc the recorded capacity is one step above the block actually held |
| `Growth.ExpandFailureOverstates` | src/string.c:198-207 | growing 16 for 40 bytes with the second realloc failing records 64 for a 32-byte block |
| `Growth.ShrinkAsWritten` | src/string.c:211-220 | after a failed shrink the recorded capacity is below the block actually held |
| `Growth.ShrinkFailureUnderstates` | src/string.c:213-216 | shrinking 192 for length 95 with realloc failing records 96 for a 192-byte block |
| `Matching.CountMatches` | src/c-string.c:102-109 | the number of matches the counting loop claims: never more than the input's length, and at least one when the pattern starts the input |
| `Matching.ReplaceAll` | src/c-string.c:125-142 | the bytes the rebuilding loop writes: each leftmost match replaced, every other byte copied; its length, absence and self-replacement facts are the lemmas below |
| `Matching.ReplaceAllLength` | src/c-string.c:111-112 | matched bytes never exceed the input; the result has length `len − k·|old| + k·|new|` |
| `Matching.CountZeroIffAbsent` | src/c-string.c:103-109 | the scan counts no match exactly when the pattern occurs nowhere |
| `Matching.ReplaceAllAbsent` | src/c-string.c:126-145 | when the pattern does not occur the result is the input byte for byte |
| `Matching.ReplaceAllSelf` | src/c-string.c:126-145 | replacing a pattern by itself changes nothing |
| `Matching.ReplaceAllNoNul` | src/c-string.c:142-145 | the result of NUL-free inputs is NUL-free, so `strcpy` copies all of it |
| `Matching.ReplaceAllSkips` | src/c-string.c:104-109 | when no position of a prefix starts a match, the scan copies the prefix verbatim and counts no match in it |
| `Matching.ReplaceAllCopies` | src/c-string.c:136-140 | a prefix without the pattern's first byte is copied verbatim |
| `Matching.ReplaceAllMatch` | src/c-string.c:130-135 | a match at the front is replaced and counted once, and the scan resumes right after it |
| `Matching.SinglePass` | src/c-string.c:126-145 | substituted text is not rescanned: `"aab"` with `"ab"`→`"b"` gives `"ab"` |
| `Matching.InterestingToFun` | tests/unit_test.c:59-64 | the replacement the unit test checks |
| `Matching.InterestingCount` | tests/unit_test.c:59-64 | the unit test's input holds two matches |
| `Matching.CountOccurrences` | src/c-string.c:102-109 | the counting loop computes the leftmost, non-overlapping match count |
| `Matching.BuildReplacement` | src/c-string.c:125-142 | the rebuilding loop computes `ReplaceAll`, and `result_i` ends at its length (which `Matching.ReplaceAllLength` gives as `len − k·|old| + k·|new|`) |
| `CStr.NewFromCapacityAsWritten` | src/c-string.c:65-66 | as written, `2·len` below 128 and `len + ⌊len/2⌋` from 128 on, which exceeds a non-empty length by at most double and is zero bytes for the empty string |
| `CStr.NewFromCapacity` | src/c-string.c:62-71 | the corrected block always exceeds the length and agrees with the source for non-empty strings |
| `CStr.StrNew` | src/c-string.c:55-60 | a set handle gives `NotEmpty` and is untouched; otherwise an empty value of capacity 16, or `AllocFailure` |
| `CStr.StrNewFrom` | src/c-string.c:62-71 | a set handle gives `NotEmpty`, a NULL source `NullPtr`; otherwise content is the source, length its length, capacity by the slack rule |
| `CStr.StrDestroy` | src/c-string.c:74-86 | the handle becomes NULL; something is freed exactly when it was set |
| `CStr.DestroyIdempotent` | src/c-string.c:74-86 | destroying twice frees once |
| `CStr.Data` | src/c-string.c:89-93 | a NULL handle gives `NullPtr`; otherwise the current content |
| `CStr.Cmp` | src/c-string.c:150-158 | any NULL argument gives `NullPtr`; otherwise `is_same` is byte-for-byte equality with the source |
| `CStr.NewFromThenData` | src/c-string.c:62-93 | `data` of a value built from `src` is `src`, and `cmp` with `src` says same |
| `CStr.NewFromSomeText` | src/c-string.c:66 | `str_new_from("Some text")` has capacity 18 |
| `CStr.ReplaceCapacity` | src/c-string.c:114-123 | the corrected block always exceeds the new length: grown to the slack of `len + 1` when too small, halved once when `len + 1 < cap/2`, else kept |
| `CStr.ReplaceCapacityAsWritten` | src/c-string.c:114-123 | as written it agrees with the corrected rule except when the new length equals the capacity, where it keeps a block with no room for the terminator |
| `CStr.Replace` | src/c-string.c:95-148 | NULL arguments, an empty pattern and realloc failure leave the handle untouched; with non-NULL arguments and a non-empty pattern the only outcomes are success and realloc failure, and realloc failure happens exactly when realloc fails and the capacity must change; on success the content is `ReplaceAll` of the original, the stored length follows and the value stays well formed |
| `CStr.ReplaceLength` | src/c-string.c:111-112 | the stored length after `replace` is `len − k·|old| + k·|new|` |
| `CStr.ReplaceAbsent` | src/c-string.c:114-145 | when `old` does not occur, content and length stay, and the capacity is unchanged or halved |
| `CStr.ReplaceUnitTest` | tests/unit_test.c:59-64 | the unit test's replacement, with capacity 124 before and 62 after |
| `CStr.ScanNextAsWritten` | src/c-string.c:104-109 | as written, the scan resumes `|old|` bytes after a match, and at the same index for an empty pattern |
| `CStr.EmptyPatternStalls` | src/c-string.c:104-109 | with an empty pattern every index matches and the scan never advances; the corrected replace reports `EmptyPattern` |
| `CStr.ReplaceAsWritten` | src/c-string.c:95-148 | against the corrected `Replace` with the same arguments: the struct keeps its old length and capacity, the bytes written are the corrected result and its terminator, the block is the corrected capacity except when the result is exactly as long as the old block, where no resize happens and the terminator does not fit, and the whole original content and terminator are read through the pointer taken before any resize |
| `CStr.ReplaceAsWrittenKeepsOldLength` | src/c-string.c:98-123 | whenever a match changes the length, the length left in the struct is not the content's |
| `CStr.ReplaceAsWrittenReadsPastBlock` | src/c-string.c:118-130 | a halving below the original data reads the source past the halved block |
| `CStr.ReplaceAsWrittenOverflows` | src/c-string.c:115-145 | a result exactly as long as the block gets its terminator written one past it |
| `CStr.ReplaceAsWrittenOverflowExample` | src/c-string.c:115-145 | `"ab"` with `"a"`→`"abc"` writes 5 bytes into 4; the corrected replace grows to 10 |
| `CStr.ReplaceAsWrittenUnitTest` | src/c-string.c:98-145 | on the unit test's input the struct keeps length 62, `_realloc` halves the block to 62, and 63 bytes are read through the old pointer |

## Left out

- The in-band `-1` of `at` and `pop` (src/string.c:126-128, 143-149). They return `char`, so the error cannot be told apart from a stored byte `0xFF`; the model's `Result` keeps the two apart. Dafny's `char` stands for a C byte but is not limited to values below 256.
- NULL `self` for the `string_t` operations. `cstring` and `slice` return NULL for it, and the others return `-1`. The operations take a live value.
- `destroy_cstring`, the `AUTO_STRING`/`AUTO_CSTRING`/`STR_AUTO_T` cleanup macros and the global destroyed flags. The destroy functions return whether they freed something.
- The function-pointer tables (`_set_function_pointers`, `_init_str`). They are wiring only.
- `calloc`, `realloc`, `free` and the fresh heap copies made by `cstring` and `slice`. Those return sequences. Allocation failure is a boolean parameter.
- The corrected operations resize with one realloc. The several reallocs of `_expand_string_data` are modelled only in `Growth.ExpandAsWritten`.
- The unchecked `malloc` of the result buffer in `replace` (src/c-string.c:126).
- A NULL pointer-to-handle passed to `str_new`, `str_new_from` or `str_destroy` (src/c-string.c:56, 63, 75). Each reads `*str` before any test of `str`.
- `_alloc` of `str_t` failing on its second or third allocation (src/c-string.c:25-35). The handle is left pointing at freed memory; the model returns no value.
- Float arithmetic. `(float)x * 1.5f` is the integer `x + x/2`. The two agree for every `x` below 5 592 409. From there on the float product can round up to the next even integer before it is truncated: `x = 5 592 409` gives 8 388 614 instead of 8 388 613.
- Growth.GrowStep: agrees with src/string.c:202 only for capacities below 5 592 409, because the float rounding above that bound is not modelled.
- CStr.NewFromCapacityAsWritten: agrees with src/c-string.c:66 only for lengths below 5 592 409, for the same reason.
- CStr.ReplaceCapacity: agrees with the growth branch of src/c-string.c:116 only for lengths below 5 592 408 (`len + 1` below 5 592 409), for the same reason.
- CStr.ReplaceCapacityAsWritten: the same bound as `CStr.ReplaceCapacity`, for the same reason.
- The `(int)index` and `(int)p->len` casts of the `remove_at` shifting loop (src/string.c:180). They wrap only for values above `INT_MAX`, which needs a 2 GiB string. `DynString.ShiftLeft` counts with an unbounded integer.
- Wrap-around of capacities and lengths at `2^64`, and of the `int` index of the `replace` counting loop at `2^31`. Only the wrap of `len - 1` in `pop`, `at` and `slice`, and of `strlen(old_str) - 1` in `replace`, is modelled.
- DynString.Len: does not model the `(int)` cast, because a length above `INT_MAX` needs a 2 GiB string.
- DynString.Capacity: does not model the `(int)` cast, for the same reason.
- DynString.Push: requires a non-NUL byte. Pushing NUL would end the C string early for `cstring` and `slice` read as C strings; `cat` appends at `data[len]` and is unaffected.
- DynString.Set: requires a non-NUL byte, for the same reason.
- DynString.PushAsWritten: assumes its growth realloc succeeds. The finding concerns the guard, not allocation.
- DynString.PopAsWritten: requires a non-empty value. On an empty one the source indexes at `2^64 - 1`, which `DynString.PopEmptyOutsideBlock` shows.
- CStr.ReplaceAsWritten: assumes its realloc succeeds and the pattern is non-empty. The empty pattern is covered by `CStr.ScanNextAsWritten`.
- `clear`, `append`, `has` and the `STR_*` macros that the examples and tests/unit_test.c use. They are not in the source files of this model.
- tests/unit_test.c also expects `test_pop_underflow` to fail. It relies on `STR_POP`, which is not part of this model.

## Findings

| source | as written | input that shows it | evidently intended | confidence | as-written member | corrected member |
|---|---|---|---|---|---|---|
| src/string.c:167-170 | grows only when `len + 1 > capacity`, then writes the terminator at `data[len + 1]` | `create_string_from("ab")` then `push('c')`: terminator written at index 3 of a 3-byte block | grow whenever the block cannot hold content, new byte and terminator | high; not executed | DynString.PushAsWrittenOverruns | DynString.Push |
| src/string.c:145-147 | `len - 1` on an unsigned length with no emptiness check | `pop` on `create_string()`: reads index `2^64 - 1` | report underflow on an empty value | high; not executed | DynString.PopEmptyOutsideBlock | DynString.Pop |
| src/string.c:128 | rejects only `index > len - 1`, which wraps for length 0 | `at(0)` on `create_string()` is accepted | reject every `index >= len` | high; not executed | DynString.EmptyAccessAsWritten | DynString.At |
| src/string.c:115-116 | `max_index = len - 1` wraps for length 0 | `slice(0, 0)` on `create_string()` is accepted | reject every range not inside the content | high; not executed | DynString.EmptyAccessAsWritten | DynString.Slice |
| src/string.c:199-205 | stores the grown capacity before realloc and keeps it when realloc fails | `cat` of 39 bytes onto `create_string()` with the second realloc failing: capacity 64 recorded for a 32-byte block | leave the value as it was when growth fails | medium (needs an allocation failure); not executed | Growth.ExpandFailureOverstates | DynString.Cat |
| src/string.c:213-216 | stores the halved capacity before realloc; on failure `pop`/`remove_at` return `-1` after removing the byte and decrementing `len` | `pop` of `"ab"` in a 64-byte block with realloc failing: returns `-1`, leaves `"a"` and records 32 for the 64-byte block | keep the old block, which still fits, and succeed; this drops the failure report the source makes, since the removal has already happened | medium (needs an allocation failure); not executed | DynString.PopAsWrittenFailsAfterRemoving | DynString.Pop |
| src/c-string.c:104-109 | for an empty `old_str`, `i += strlen(old_str) - 1` then `i++` leaves `i` unchanged and every position matches | `replace(str, "", "x")` on `"ab"` never terminates | refuse an empty pattern; on empty content the source's counting loop never runs, so it returns success there (and may halve the block), while the corrected replace refuses that case too | high; not executed | CStr.EmptyPatternStalls | CStr.Replace |
| src/c-string.c:98-123 | the new length and capacity go into locals and are never stored | the unit test's replacement leaves length 62 for 46 bytes of content | store the new length and capacity | high; not executed | CStr.ReplaceAsWrittenKeepsOldLength | CStr.Replace |
| src/c-string.c:100-145 | reads and `strcpy`s through the `data` pointer taken before `_realloc` | the unit test's replacement calls `_realloc` and then uses the old pointer | build the result from the original content, then store it in the resized block | high; not executed | CStr.ReplaceAsWrittenUnitTest | CStr.Replace |
| src/c-string.c:118-130 | may halve the block before the source is read | the unit test's replacement halves 124 to 62 bytes, then reads 63 | resize only after the result is built | high; not executed | CStr.ReplaceAsWrittenReadsPastBlock | CStr.Replace |
| src/c-string.c:115 | grows only when `len > capacity`, leaving no room for the terminator when they are equal | `str_new_from("ab")` then `replace("a", "abc")`: 5 bytes written into 4 | grow when `len + 1 > capacity` | high; not executed | CStr.ReplaceAsWrittenOverflowExample | CStr.ReplaceCapacity |
| src/c-string.c:66-69 | capacity `len * 2` is 0 for the empty string, then `strcpy` writes its terminator | `str_new_from("")` | a block with room for the terminator | high; not executed | CStr.NewFromCapacityAsWritten | CStr.NewFromCapacity |
