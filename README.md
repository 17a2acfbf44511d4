# A verified model of seven C++ containers and number types

This project is a Dafny model of seven header-only C++ components, each with the properties its code promises, proved:

- **Shared_ptr.h** holds `SharedPtr`, `WeakPtr`, their control blocks, `allocateShared`/`makeShared` and `EnableSharedFromThis`.
  - The counters of a block, and the number of times `delete_obj` and `delete_block` run, are a value (`BlockState`) with one transition function per handle operation.
  - Lemmas over arbitrary runs of handle operations prove that the payload is destroyed at most once and the block freed at most once, and exactly once when the last handle goes away.
  - The classes `ControlBlock`, `SharedPtr`, `WeakPtr` and `Payload` share one mutable block between handles, and every method is proved to move the block along its transition.
- **Big_integer.h** holds `BigInteger` (a sign flag and little-endian base-10^9 limbs), `gcd` and `Rational`.
  - The limbs are a `seq<int>` field the operators update in place; every operator is proved against the integer the limbs denote.
  - Canonical form (limbs in range, no top zero limb, no negative zero) is an invariant.
  - Decimal parsing and printing are proved to be inverse.
  - `Rational` is modelled on the integer values of its two parts, combined with exact integer arithmetic (the corrected BigInteger operations, not the written ones). `norm()` establishes lowest terms with a positive denominator, and every operator is proved exact on the real number numerator / denominator.
  - `asDecimal`, `toString` and `operator>>` are specified by string functions.
- **Matrix.h** holds a copy of BigInteger and Rational, `is_prime`, `Residue<N>` and `Matrix<M, N, Field>`.
  - The Rational copy's compound operators divide by gcds first. They are modelled separately (the `Predivided` members) and proved to give the same value as exact arithmetic, already in lowest terms.
  - `Residue<N>` is modelled with its `size_t` wrap-around. Division by `pown(other, N - 2)` is proved to be a true inverse for prime N, via Fermat's little theorem proved from the binomial theorem.
  - `Matrix` keeps its `std::array` of rows as a sequence field over exact real numbers. The determinant is defined by cofactor expansion along the first column.
  - Gaussian elimination is proved to apply row operations that keep that determinant and to end in row-echelon form, so `det` is proved to return the determinant.
  - `invert` is proved to return a two-sided inverse; `rank`, the product, transpose and trace are proved against their mathematical definitions.
- **String_simple.h** holds a growable NUL-terminated `char` buffer.
  - `String` keeps an `array<char>` with size and capacity, and every operation is proved against the text it holds and against the capacity rules.
  - `find`/`rfind` are proved against a match predicate, and the comparisons against lexicographic order.
- **Deque.h** holds a deque of 16-slot blocks addressed by (block, index) iterators.
  - The iterator arithmetic is proved to move the flat position by exactly the requested amount.
  - Every operation is proved against a ghost sequence of elements tied to the blocks: push and pop at both ends, reallocation in `reserve`, and `insert`/`erase` with their shifting loops.
- **List.h** holds a doubly-linked ring around a sentinel node, and a bump allocator over a fixed buffer (`StackStorage`, `StackAllocator`).
  - The list is made of real `Node` objects whose `next`/`prev` links are proved to walk the ghost sequence of elements both ways.
  - `StackAllocator` is modelled on addresses, with `std::align` written out.
- **Unordered_map.h** holds a separate-chaining hash map whose entries all live in one list, with one bucket head per bucket.
  - The hash function is a parameter of the map.
  - The entry list is modelled on the sequence of its entries (its linking is List.h's), and bucket heads are positions in it.
  - The bucket invariant is stated and proved to be kept by `emplace` and `erase`: each bucket's entries are contiguous and its head is the first of them. `find`, `operator[]`, `at` and `reserve` are proved against the entries.

Defects found in the source are modelled twice: once as written, with a lemma or contract that exhibits the failing input, and once corrected, with the intended property proved; see "## Findings".

## Model

| member | source | states |
|---|---|---|
| SharedPtrModel.Adopted | Shared_ptr.h:106-118 | the adopting constructor's block is owned, has one strong reference, and counts the payload's EnableSharedFromThis link as its only weak reference exactly when the payload derives from EnableSharedFromThis |
| SharedPtrModel.Allocate | Shared_ptr.h:225-239 | a block from allocateShared/makeShared starts owned with one strong and no weak reference |
| SharedPtrModel.AdoptWeak | Shared_ptr.h:252-261 | a block from the adopting WeakPtr constructor is consistent, expired from the start, and holds one outside weak reference |
| SharedPtrModel.AcquireShared | Shared_ptr.h:128-133 | copying a SharedPtr adds exactly one strong reference and changes nothing else on the block |
| SharedPtrModel.AcquireWeak | Shared_ptr.h:280-285 | copying a WeakPtr adds exactly one weak reference, held outside the payload, and changes nothing else |
| SharedPtrModel.ReleaseWeak | Shared_ptr.h:368-378 | ~WeakPtr drops one weak reference and frees the block exactly when no reference of either kind is left |
| SharedPtrModel.ObjDeleted | Shared_ptr.h:46-48 | delete_obj destroys the payload once more; destroying a payload that holds its own link also drops that weak reference and frees the block when it was the last one |
| SharedPtrModel.ReleaseShared | Shared_ptr.h:209-222 | ~SharedPtr drops one strong reference, destroys the payload exactly when it was the last, and frees the block exactly when also no outside weak reference is left |
| SharedPtrModel.LockAsWritten | Shared_ptr.h:340-342 | lock as written adds a strong reference whatever the counters say |
| SharedPtrModel.Lock | Shared_ptr.h:340-342 | lock as intended: an expired block is left untouched, a live one gains one strong reference |
| SharedPtrModel.Step | Shared_ptr.h:128-378 | every handle operation on a live handle keeps the block consistent and keeps an owned block owned |
| SharedPtrModel.Run | Shared_ptr.h:128-378 | any sequence of handle operations keeps the block consistent and keeps an owned block owned |
| SharedPtrModel.DestroyedAndFreedExactlyOnce | Shared_ptr.h:209-222 | for a block made by a SharedPtr, after any sequence of operations the payload is destroyed at most once and exactly when no strong owner is left, and the block is freed at most once and exactly when no handle at all is left |
| SharedPtrModel.WeakAdoptedNeverDestroys | Shared_ptr.h:252-261 | a block made by the adopting WeakPtr constructor never gains an owner, never destroys its payload, and is freed when its last weak handle goes |
| SharedPtrModel.NeverOwnedStaysExpired | Shared_ptr.h:252-261 | an expired block that was never linked stays expired with its payload alive, and is freed whenever its weak count is 0 |
| SharedPtrModel.MakeCopyDestroyScenario | Shared_ptr.h:209-222 | make, copy, destroy, destroy: the payload is destroyed once and the block freed once |
| SharedPtrModel.AdoptWeakLockScenario | Shared_ptr.h:340-342 | after the last owner goes, lock on the observing WeakPtr changes nothing, and the block is freed once the WeakPtr goes |
| SharedPtrModel.LockAsWrittenRevivesExpiredBlock | Shared_ptr.h:340-342 | lock as written on an expired block breaks consistency, and destroying its result runs delete_obj a second time |
| SharedPtrModel.LockKeepsConsistent | Shared_ptr.h:340-342 | the corrected lock keeps every block consistent and owned, and never revives an expired one |
| SharedPtrModel.Payload.constructor | Shared_ptr.h:9-25 | a new payload has an empty EnableSharedFromThis link |
| SharedPtrModel.Payload.SharedFromThis | Shared_ptr.h:19-24 | shared_from_this fails exactly when the link is expired, and otherwise returns a new owner of the linked block that has gained one strong reference |
| SharedPtrModel.ControlBlock.constructor | Shared_ptr.h:27-44 | a new block has both counters at 0 and has destroyed and freed nothing |
| SharedPtrModel.ControlBlock.DeleteObj | Shared_ptr.h:46-48 | the block moves along ObjDeleted and stays valid |
| SharedPtrModel.ControlBlock.DeleteBlock | Shared_ptr.h:50-55 | the block moves along BlockDeleted |
| SharedPtrModel.SharedPtr.Empty | Shared_ptr.h:104 | the default SharedPtr is empty |
| SharedPtrModel.SharedPtr.Adopt | Shared_ptr.h:106-118 | a fresh pointer-owning block in state Adopted, with use_count 1; an EnableSharedFromThis payload is linked to it, any other payload is left unchanged |
| SharedPtrModel.SharedPtr.Private | Shared_ptr.h:100-102 | the private constructor shares the given block, which gains one strong reference |
| SharedPtrModel.SharedPtr.Copy | Shared_ptr.h:128-133 | the copy shares the source's pointer and block, and a non-null block gains one strong reference |
| SharedPtrModel.SharedPtr.Alias | Shared_ptr.h:120-126 | the alias holds the given pointer on the source's block, which gains one strong reference |
| SharedPtrModel.SharedPtr.Move | Shared_ptr.h:149-152 | the new handle takes over pointer and block, the source is left empty, and no counter changes |
| SharedPtrModel.SharedPtr.Swap | Shared_ptr.h:167-170 | the two handles exchange pointer and block, and both stay valid |
| SharedPtrModel.SharedPtr.AssignCopy | Shared_ptr.h:154-158 | the target takes the source's pointer and block; the source's block gains a strong reference and the target's old block loses one, and the two cancel on a shared block |
| SharedPtrModel.SharedPtr.AssignMove | Shared_ptr.h:172-176 | the target takes the source's pointer and block, the source is left empty, the target's old block loses one strong reference, and self-move changes nothing |
| SharedPtrModel.SharedPtr.Reset | Shared_ptr.h:204-207 | reset() leaves the handle empty and the old block loses one strong reference |
| SharedPtrModel.SharedPtr.ResetTo | Shared_ptr.h:204-207 | reset(ptr) adopts ptr in a fresh block with use_count 1, and the old block loses one strong reference |
| SharedPtrModel.SharedPtr.Destroy | Shared_ptr.h:209-222 | the destructor moves a non-null block along ReleaseShared |
| SharedPtrModel.WeakPtr.Empty | Shared_ptr.h:250 | the default WeakPtr is empty |
| SharedPtrModel.WeakPtr.AdoptRaw | Shared_ptr.h:252-261 | a fresh block in state AdoptWeak; the handle is expired from the start |
| SharedPtrModel.WeakPtr.Copy | Shared_ptr.h:280-285 | the copy observes the source's block, which gains one weak reference |
| SharedPtrModel.WeakPtr.Alias | Shared_ptr.h:263-270 | the alias holds the given pointer on the source's block, which gains one weak reference |
| SharedPtrModel.WeakPtr.Move | Shared_ptr.h:293-296 | the new handle takes over pointer and block, the source is left empty, and no counter changes |
| SharedPtrModel.WeakPtr.FromShared | Shared_ptr.h:298-300 | the handle observes the SharedPtr's block, which gains one weak reference and is not expired |
| SharedPtrModel.WeakPtr.Swap | Shared_ptr.h:344-347 | the two handles exchange pointer and block, and both stay valid |
| SharedPtrModel.WeakPtr.AssignCopy | Shared_ptr.h:307-311 | the target takes the source's pointer and block; the source's block gains a weak reference and the target's old block loses one |
| SharedPtrModel.WeakPtr.AssignMove | Shared_ptr.h:320-324 | the target takes the source's pointer and block, the source is left empty, the target's old block loses one weak reference, and self-move changes nothing |
| SharedPtrModel.WeakPtr.Destroy | Shared_ptr.h:368-378 | the destructor moves a non-null block along ReleaseWeak |
| SharedPtrModel.WeakPtr.Lock | Shared_ptr.h:340-342 | corrected lock: an empty result with the block untouched when expired, otherwise a new owner of the block, which gains one strong reference |
| SharedPtrModel.MakeShared | Shared_ptr.h:235-239 | a fresh object-owning block in state Allocate, with use_count 1, whose payload's EnableSharedFromThis link stays unpopulated |
| Limbs.LimbsBounds | Big_integer.h:8-10 | limbs that each lie in [0, mod) denote a number in [0, mod^n) for n limbs |
| Limbs.PowIsPow10 | Big_integer.h:8-9 | mod = 10^9 and max_length = 9 agree: n limbs hold exactly 9n decimal digits |
| Limbs.LimbsDropTopZero | Big_integer.h:13-20 | popping a most-significant zero limb (delete_zero's loop) keeps the value |
| Limbs.LimbsLessByLength | Big_integer.h:113-114 | of two canonical magnitudes, the one with fewer limbs is the smaller |
| Limbs.LimbsLessAt | Big_integer.h:116-120 | equal-length magnitudes that agree above limb k compare as their limbs at k |
| Limbs.LimbsInjective | Big_integer.h:132-139 | in-range limb sequences of one length with one value are the same limbs |
| Limbs.CanonicalLimbsUnique | Big_integer.h:128-141 | canonical limb sequences are determined by their value, so limb-wise equality is value equality |
| Limbs.ParseNatSplit | Big_integer.h:91-94 | splitting digit text at k splits its value into the high part times 10^(rest) plus the low part, which is how the nine-digit chunks add up |
| Limbs.DigitsLEShift | Big_integer.h:313-324 | x below 10^k followed by y prints as x's k zero-padded digits then y's digits, least significant first |
| Limbs.LimbsDigits | Big_integer.h:313-324 | the padded digits of the lower limbs followed by the top limb's digits are the decimal digits of the value |
| Limbs.DecimalRoundTrip | Big_integer.h:304-329 | parsing the decimal text of any integer gives it back, and that text is canonical (no leading zero, no "-0") |
| Limbs.ParseRoundTrip | Big_integer.h:85-96 | printing the value of canonical decimal text gives the same text back |
| BigIntegerModel.CanonicalSign | Big_integer.h:13-20 | in canonical form the sign flag is set exactly for negative values and no limbs means zero |
| BigIntegerModel.CanonicalUnique | Big_integer.h:128-141 | two canonical representations denote the same integer if and only if their flags and limbs agree |
| BigIntegerModel.CastSubstringToInt | Big_integer.h:39-47 | the loop from the right with a growing power of ten computes the value of the digits str[left..right] |
| BigIntegerModel.ChunkStep | Big_integer.h:91-94 | a chunk of at most nine digits is one limb, and pushing it extends the parsed suffix by those digits |
| BigIntegerModel.ParseChunks | Big_integer.h:91-94 | the chunk loop yields in-range limbs whose value is that of the digit text |
| BigIntegerModel.CarryStepValue | Big_integer.h:214-220 | one carry step of operator+= keeps the running sum of limbs, pending carry and other's remaining limbs |
| BigIntegerModel.BorrowStepValue | Big_integer.h:233-238 | one borrow step keeps the running difference of limbs, pending borrow and other's remaining limbs |
| BigIntegerModel.PushZero | Big_integer.h:215-217 | push_back(0) grows the limbs without changing the value |
| BigIntegerModel.NegateStep | Big_integer.h:250-253 | one step of the corrected complement keeps the limbs so far equal to (borrow) * mod^i minus the original low limbs |
| BigIntegerModel.FlipStep | Big_integer.h:251-253 | one step of the complement as written: limbs so far are mod^i minus the original low limbs, less the carry already lost |
| BigIntegerModel.LowLimbZero | Big_integer.h:250 | the lowest limb of mod^n - y is zero exactly when mod divides y, which is when the written complement loses its carry |
| BigIntegerModel.AddAsWrittenDropsCarry | Big_integer.h:250-255 | 5 += -1000000005 gives 0 instead of -1000000000 |
| BigIntegerModel.AddAsWrittenAgrees | Big_integer.h:211-256 | off the one faulty case (opposite signs, larger other whose magnitudes differ by a multiple of mod) the written operator+= is exact addition |
| BigIntegerModel.HornerAsWrittenExact | Big_integer.h:288-294 | with a non-negative multiplicand every partial sum and term of the written Horner loop is non-negative, so the loop yields the exact product with the limbs' value |
| BigIntegerModel.MulAsWrittenDropsCarry | Big_integer.h:288-300 | (-1000000000) *= 1 as written gives 0 instead of -1000000000 |
| BigIntegerModel.MulAsWrittenAgrees | Big_integer.h:288-300 | for a non-negative this the written operator*= is the exact product, whatever other's sign |
| BigIntegerModel.ModAsWrittenDropsCarry | Big_integer.h:331-338 | (-3000000000) %= (-1000000000) as written gives -1000000000, where the exact remainder is 0 |
| BigIntegerModel.ModAsWrittenAgrees | Big_integer.h:331-338 | for a non-negative dividend and a positive divisor, the only operands gcd passes, the written operator%= is Euclid's remainder |
| BigIntegerModel.DecrementBorrow | Big_integer.h:167-173 | operator-- passing a zero limb sets it to mod - 1 and moves the borrow up one limb |
| BigIntegerModel.DecrementStop | Big_integer.h:168-170 | decrementing the first non-zero limb completes the subtraction of one |
| BigIntegerModel.IncrementCarry | Big_integer.h:190-194 | operator++ passing a limb mod - 1 zeroes it and moves the carry up one limb |
| BigIntegerModel.IncrementStop | Big_integer.h:190-192 | incrementing the first limb below mod - 1 completes the addition of one |
| BigIntegerModel.PushLimb | Big_integer.h:274-277 | pushing add % mod and keeping add / mod pending leaves the running value unchanged |
| BigIntegerModel.MulCarryBound | Big_integer.h:269-273 | the long long carry of operator*=(int) never exceeds the factor, so limb * digit + add stays below mod * digit |
| BigIntegerModel.MulLimbStep | Big_integer.h:269-273 | one step of the multiply loop keeps the low limbs plus the carry times mod^i equal to the original low limbs times the factor |
| BigIntegerModel.AllTopLimbs | Big_integer.h:426-433 | limbs that are all mod - 1 denote mod^n - 1, the quotient a zero divisor produces |
| BigIntegerModel.LongDivStep | Big_integer.h:426-432 | bringing down a limb and putting the new quotient limb in front keeps dividend suffix = quotient * divisor + partial remainder |
| BigIntegerModel.RemainderBound | Big_integer.h:429-430 | after subtracting divisor times the quotient limb, the partial remainder is again below the divisor |
| BigIntegerModel.PadLimbsStep | Big_integer.h:313-319 | one more lower limb appends exactly its nine zero-padded digits to the collected text |
| BigIntegerModel.AppendPadded | Big_integer.h:314-318 | the inner loop of toString pushes exactly nine digits of a limb, zero-padded, least significant first |
| BigIntegerModel.AppendDigits | Big_integer.h:320-324 | the top-limb loop pushes the limb's digits, least significant first, with no padding |
| BigIntegerModel.AppendReversed | Big_integer.h:325-327 | the last loop appends the collected digits in reverse |
| BigIntegerModel.BigInteger.constructor | Big_integer.h:72 | the default BigInteger is zero with no limbs |
| BigIntegerModel.BigInteger.Copy | Big_integer.h:104 | the implicit copy has the same sign flag and limbs |
| BigIntegerModel.BigInteger.FromInt | Big_integer.h:74-83 | BigInteger(long long) is canonical and denotes x |
| BigIntegerModel.BigInteger.FromString | Big_integer.h:85-96 | BigInteger(string) is canonical and denotes the value of the optional '-' and the digits |
| BigIntegerModel.BigInteger.DeleteZero | Big_integer.h:13-20 | delete_zero makes the number canonical, keeps its value, only drops top limbs, changes nothing on trimmed limbs and keeps the sign of a non-zero number |
| BigIntegerModel.BigInteger.ChangeSign | Big_integer.h:364-368 | ChangeSign negates the value and keeps the limbs, so zero stays non-negative |
| BigIntegerModel.BigInteger.Swap | Big_integer.h:98-101 | swap exchanges the sign flags and limbs of the two numbers |
| BigIntegerModel.BigInteger.Negate | Big_integer.h:103-107 | unary minus returns a new canonical number with the opposite value |
| BigIntegerModel.BigInteger.Less | Big_integer.h:109-122 | operator< holds if and only if this value is smaller |
| BigIntegerModel.BigInteger.Greater | Big_integer.h:124-126 | operator> holds if and only if this value is larger |
| BigIntegerModel.BigInteger.LessOrEqual | Big_integer.h:143-145 | operator<= holds if and only if this value is at most other's |
| BigIntegerModel.BigInteger.GreaterOrEqual | Big_integer.h:147-149 | operator>= holds if and only if this value is at least other's |
| BigIntegerModel.BigInteger.Equal | Big_integer.h:128-141 | operator== compares flags and limbs, which on canonical numbers is value equality |
| BigIntegerModel.BigInteger.NotEqual | Big_integer.h:151-153 | operator!= holds if and only if the values differ |
| BigIntegerModel.BigInteger.Carry | Big_integer.h:49-58 | carry adds the incoming carry to the limb, reduces it below mod and reports whether it overflowed |
| BigIntegerModel.BigInteger.Subtract | Big_integer.h:60-70 | subtract takes the deductible and borrow from the limb, borrowing mod exactly when they exceed it |
| BigIntegerModel.BigInteger.AddMagnitude | Big_integer.h:212-226 | the same-sign branch adds other's magnitude to this one, limbs staying in range |
| BigIntegerModel.BigInteger.AddLimbs | Big_integer.h:213-220 | the first loop leaves this + carry * mod^|other| equal to the sum of the magnitudes |
| BigIntegerModel.BigInteger.AddLimbAt | Big_integer.h:215-219 | one pass adds other's limb and the carry at index i, keeping the running sum |
| BigIntegerModel.BigInteger.PropagateCarry | Big_integer.h:221-223 | the second loop moves the carry through the remaining limbs without changing the total |
| BigIntegerModel.BigInteger.SubtractMagnitude | Big_integer.h:232-249 | the opposite-sign branch subtracts other's magnitude; a final borrow means the limbs wrapped round mod^n and other was larger |
| BigIntegerModel.BigInteger.SubtractLimbs | Big_integer.h:232-238 | the first loop leaves this - borrow * mod^|other| equal to the difference of the magnitudes |
| BigIntegerModel.BigInteger.SubtractLimbAt | Big_integer.h:234-237 | one pass takes other's limb and the borrow at index i, keeping the running difference |
| BigIntegerModel.BigInteger.PropagateBorrow | Big_integer.h:243-245 | the second loop moves the borrow through the remaining limbs without changing the difference |
| BigIntegerModel.BigInteger.Complement | Big_integer.h:250-253 | the corrected complement turns the wrapped limbs into mod^n minus their value (zero stays zero) |
| BigIntegerModel.BigInteger.ComplementAsWritten | Big_integer.h:250-253 | the complement as written is mod too small when the low limb is zero |
| BigIntegerModel.BigInteger.AddAssign | Big_integer.h:211-256 | operator+= (with the corrected complement) leaves a canonical number denoting the sum |
| BigIntegerModel.BigInteger.AddAssignAsWritten | Big_integer.h:211-256 | operator+= as written computes AddAsWrittenValue, canonical in every case |
| BigIntegerModel.BigInteger.SubAssign | Big_integer.h:258-261 | operator-= over the corrected operator+= leaves a canonical number denoting the difference |
| BigIntegerModel.BigInteger.SubAssignAsWritten | Big_integer.h:258-261 | operator-= as written is the written operator+= of the negation, AddAsWrittenValue(this, -other), canonical in every case |
| BigIntegerModel.BigInteger.Decrement | Big_integer.h:155-176 | operator-- subtracts one and stays canonical |
| BigIntegerModel.BigInteger.Increment | Big_integer.h:178-197 | operator++ (corrected for -1) adds one and stays canonical |
| BigIntegerModel.BigInteger.IncrementAsWritten | Big_integer.h:178-197 | as written, operator++ adds one except on -1, which becomes a negative zero that is not canonical |
| BigIntegerModel.BigInteger.IncrementMagnitude | Big_integer.h:185-195 | the carry loop adds one to a non-negative number |
| BigIntegerModel.BigInteger.DecrementMagnitude | Big_integer.h:167-174 | the borrow loop and delete_zero subtract one from a positive number |
| BigIntegerModel.BigInteger.MulAssignInt | Big_integer.h:263-280 | operator*=(int) leaves a canonical number denoting the product, for every int factor but INT_MIN |
| BigIntegerModel.BigInteger.MulMagnitude | Big_integer.h:268-279 | for a non-negative factor the sign stays and the magnitude is scaled |
| BigIntegerModel.BigInteger.MulLimbs | Big_integer.h:268-273 | the limb loop leaves limbs + carry * mod^n equal to the old magnitude times the factor, with the carry at most the factor |
| BigIntegerModel.BigInteger.PushCarry | Big_integer.h:274-277 | the carry loop appends the carry's limbs above the existing ones |
| BigIntegerModel.BigInteger.Times | Big_integer.h:282-286 | operator*(int) returns a new canonical number denoting the product |
| BigIntegerModel.BigInteger.MulAssign | Big_integer.h:288-300 | operator*= as written: for distinct operands MulAsWrittenValue (the Horner loop over the written operator+=, then other's sign), and zero for x *= x |
| BigIntegerModel.BigInteger.MulAssignAliasSafe | Big_integer.h:288-300 | operator*= corrected, reading other before clearing this and accumulating with the corrected operator+=, denotes the product in every case |
| BigIntegerModel.BigInteger.MulAccumulate | Big_integer.h:291-294 | the Horner loop from the top limb over the corrected operator+= yields copy times other's magnitude |
| BigIntegerModel.BigInteger.MulAccumulateAsWritten | Big_integer.h:291-294 | the Horner loop as written, each step through the written operator+=, yields HornerAsWritten of copy and other's limbs |
| BigIntegerModel.BigInteger.FindDiv | Big_integer.h:22-37 | find_div returns the largest q below mod with other * q <= this |
| BigIntegerModel.BigInteger.DivAssign | Big_integer.h:417-438 | operator/= gives the quotient truncated toward zero; a zero divisor gives mod^n - 1 with this's sign |
| BigIntegerModel.BigInteger.LongDivide | Big_integer.h:421-434 | the long-division loop yields quotient limbs equal to the magnitude divided by the divisor, all mod - 1 for a zero divisor |
| BigIntegerModel.BigInteger.BringDown | Big_integer.h:427-430 | one round shifts a limb into the partial remainder and subtracts divisor times the quotient limb, keeping the remainder below the divisor |
| BigIntegerModel.BigInteger.SubtractMultiple | Big_integer.h:429-430 | the largest multiple of the divisor that fits is subtracted, leaving a non-negative remainder |
| BigIntegerModel.BigInteger.ShiftIn | Big_integer.h:427-428 | initial_part *= mod then += x appends a low limb to the partial remainder |
| BigIntegerModel.BigInteger.ToString | Big_integer.h:304-329 | toString yields the canonical decimal text of the value, which parses back to it |
| BigIntegerModel.BigInteger.LowLimbDigits | Big_integer.h:313-319 | the first loop of toString collects nine zero-padded digits of every limb but the top one |
| BigIntegerModel.BigInteger.ModAssign | Big_integer.h:331-338 | operator%= over the corrected *= and -= leaves this minus other times the truncated quotient, and leaves this unchanged for a zero divisor |
| BigIntegerModel.BigInteger.ModAssignAsWritten | Big_integer.h:331-338 | operator%= as written, through the written *= and -=, leaves ModAsWrittenValue of this and other, for a zero divisor too |
| BigIntegerModel.BigInteger.PostIncrement | Big_integer.h:199-203 | postfix ++ over the corrected prefix ++ returns the old value and adds one |
| BigIntegerModel.BigInteger.PostIncrementAsWritten | Big_integer.h:199-203 | postfix ++ as written returns the old value, adds one to every value but -1, and leaves -1 as a non-canonical negative zero |
| BigIntegerModel.BigInteger.PostDecrement | Big_integer.h:205-209 | postfix -- returns the old value and subtracts one |
| BigIntegerModel.BigInteger.AsBool | Big_integer.h:340-342 | operator bool holds if and only if the value is not zero |
| BigIntegerModel.BigInteger.IsNegative | Big_integer.h:360-362 | IsNegative holds if and only if the value is negative |
| BigIntegerModel.BigInteger.ToLongLong | Big_integer.h:344-358 | operator long long returns the value when it fits in a long long |
| BigIntegerModel.Literal | Big_integer.h:401-403 | operator ""_bi yields a canonical number with the literal's value |
| BigIntegerModel.Sum | Big_integer.h:371-375 | operator+ over the corrected operator+= returns a new number denoting the sum |
| BigIntegerModel.SumAsWritten | Big_integer.h:371-375 | operator+ as written returns a new number denoting AddAsWrittenValue of the operands |
| BigIntegerModel.Difference | Big_integer.h:377-381 | operator- over the corrected operator-= returns a new number denoting the difference |
| BigIntegerModel.DifferenceAsWritten | Big_integer.h:377-381 | operator- as written returns a new number denoting AddAsWrittenValue(first, -second) |
| BigIntegerModel.Product | Big_integer.h:383-387 | operator* over the corrected operator*= returns a new number denoting the product |
| BigIntegerModel.ProductAsWritten | Big_integer.h:383-387 | operator* as written returns a new number denoting MulAsWrittenValue of the operands (the copy never aliases second) |
| BigIntegerModel.Quotient | Big_integer.h:389-393 | operator/ returns the quotient truncated toward zero |
| BigIntegerModel.Remainder | Big_integer.h:395-399 | operator% over the corrected operator%= returns the remainder of truncating division |
| BigIntegerModel.RemainderAsWritten | Big_integer.h:395-399 | operator% as written returns a new number denoting ModAsWrittenValue of the operands |
| BigIntegerModel.TruncDivMod | Big_integer.h:389-399 | the truncated quotient has magnitude abs(a) / abs(b); the remainder is smaller than abs(b) and takes a's sign, as C++ defines / and % |
| BigIntegerModel.NonNegativeRemainder | Big_integer.h:395-399 | for operands that are not negative, the truncating remainder is Euclid's a % b |
| BigIntegerModel.DividesEuclidStep | Big_integer.h:453 | (a, b) and (b, a % b) have the same common divisors |
| BigIntegerModel.NatGcdIsGcd | Big_integer.h:440-454 | the recursion divides both arguments and every common divisor divides it: it is the greatest common divisor |
| BigIntegerModel.NatGcdPositive | Big_integer.h:447-452 | the gcd is zero only for two zeros and is at most any non-zero argument |
| BigIntegerModel.AbsCopy | Big_integer.h:441-446 | a by-value argument made non-negative denotes the absolute value |
| BigIntegerModel.Gcd | Big_integer.h:440-454 | gcd, recursing on the written operator%, returns a new canonical number denoting the greatest common divisor of the absolute values |
| Limbs.DigitChar | Big_integer.h:316 | '0' + d is a digit character that reads back as d |
| Limbs.ParsePrintedNat | Big_integer.h:320-327 | the top limb's digits, emitted in reverse, parse back to the limb |
| Limbs.PrintParsedNat | Big_integer.h:39-47 | digit text without a leading zero is printed back unchanged from its value |
| DecimalText.ParsePadded | Big_integer.h:553-560 | the k-digit zero-padded text of x, read most significant first, is k digits that parse to x mod 10^k |
| DecimalText.WholeDigits | Big_integer.h:556 | the decimal text of a non-negative whole part is a digit string with that value |
| DecimalText.FixedPointDigits | Big_integer.h:556-561 | the text asDecimal assembles has its point after the whole part, and without the point its digits spell t |
| DecimalText.PaddedFraction | Big_integer.h:557-560 | zeros up to precision characters in front of the fractional digits give exactly the precision-digit padded text, so the size_t subtraction cannot wrap |
| DecimalText.TruncatedSplit | Big_integer.h:552-557 | the whole part a / d and the scaled remainder (a % d) * 10^p / d are the high and low parts of a * 10^p / d |
| DecimalText.SlashIndex | Matrix.h:666-676 | the index of the first '/' (or the length when there is none), with no '/' before it |
| DecimalText.DropSlashes | Matrix.h:666-676 | the text with every '/' removed holds no '/' |
| DecimalText.DecimalTextReadable | Big_integer.h:304-329 | the decimal text of an integer holds no '/' and is accepted by the string constructor, which gives the integer back |
| RationalModel.Bezout | Big_integer.h:440-454 | gcd(a, b) is an integer combination of a and b |
| RationalModel.CoprimeByCombination | Big_integer.h:440-454 | numbers with a combination equal to 1 have gcd 1 |
| RationalModel.CoprimeProduct | Big_integer.h:509-513 | a number coprime to both factors is coprime to their product |
| RationalModel.CoprimeDivides | Big_integer.h:440-454 | Euclid's lemma: a divisor of b * c coprime with b divides c |
| RationalModel.GcdOfQuotients | Big_integer.h:461-464 | dividing two numbers (not both zero) by their gcd is exact and leaves coprime quotients |
| RationalModel.ReducedUnique | Big_integer.h:609-611 | lowest terms with a positive denominator are unique for a value |
| RationalModel.ExactTruncDiv | Big_integer.h:463-464 | dividing by a divisor, truncating as BigInteger::operator/= does, is exact |
| RationalModel.Normalize | Big_integer.h:461-469 | norm() leaves a pair in lowest terms with a positive denominator that denotes the same fraction |
| RationalModel.NormalizeUnique | Big_integer.h:461-469 | norm() gives the one reduced pair that denotes the fraction |
| RationalModel.QEqual | Big_integer.h:609-611 | two fractions are equal exactly when their cross products are |
| RationalModel.QLess | Big_integer.h:613-615 | with positive denominators, fractions compare as their cross products |
| RationalModel.QSum | Big_integer.h:495-507 | the cross sum (and difference) over the denominator product denotes the sum (and difference) of the fractions |
| RationalModel.QProduct | Big_integer.h:509-514 | the product of numerators over the product of denominators denotes the product |
| RationalModel.QQuotient | Big_integer.h:516-521 | numerator times other's denominator over denominator times other's numerator denotes the quotient |
| RationalModel.EqualMeans | Big_integer.h:609-611 | reduced pairs are cross-equal exactly when they denote the same rational, and exactly when they are the same pair |
| RationalModel.CrossCoprime | Matrix.h:519-531 | products of numbers coprime crosswise are coprime |
| RationalModel.PredivideSum | Matrix.h:499-517 | dividing the cross sum (or difference) and the denominator product by gcd of the denominators is exact and keeps the fraction |
| RationalModel.PredivideProduct | Matrix.h:519-532 | dividing the products by gcd(numerator, other.denominator) * gcd(other.numerator, denominator) is exact and already in lowest terms |
| RationalModel.PredivideQuotient | Matrix.h:534-547 | dividing the cross products by gcd(numerator, other.numerator) * gcd(other.denominator, denominator) is exact and, after the sign moves up, in lowest terms |
| RationalModel.SelfQuotient | Big_integer.h:516-521 | x /= x as written computes n*d over d*(n*d), which reduces to 1/d |
| RationalModel.TruncatedBounds | Big_integer.h:542-563 | the digits asDecimal prints are the magnitude truncated to p places: t / 10^p <= abs(value) < (t + 1) / 10^p |
| RationalModel.AsDecimalParts | Big_integer.h:556-561 | the whole part, the point, the padding zeros and the fractional digits asDecimal joins make up the fixed-point text |
| RationalModel.ScaleByPow10 | Big_integer.h:553-555 | multiplying by 10 p times scales by 10^p |
| RationalModel.AppendZeros | Big_integer.h:558-560 | the padding loop appends exactly k zeros |
| RationalModel.Rational.constructor | Big_integer.h:471 | Rational() is 0/1 |
| RationalModel.Rational.Copy | Big_integer.h:473 | the defaulted copy constructor copies both parts |
| RationalModel.Rational.FromInt | Big_integer.h:475-477 | Rational(int) and Rational(BigInteger) are num/1, already reduced |
| RationalModel.Rational.FromFraction | Big_integer.h:479-481 | Rational(numerator, denominator) is reduced and denotes numerator / denominator |
| RationalModel.Rational.Norm | Big_integer.h:461-469 | norm() leaves lowest terms with a positive denominator, cross-equal to the old pair |
| RationalModel.Rational.Assign | Big_integer.h:483-487 | operator= copies both parts |
| RationalModel.Rational.Negate | Big_integer.h:489-493 | unary minus returns a reduced copy with the opposite value |
| RationalModel.Rational.AddAssign | Big_integer.h:495-500 | operator+= leaves a reduced fraction denoting the sum, for other distinct from this object |
| RationalModel.Rational.SubAssign | Big_integer.h:502-507 | operator-= leaves a reduced fraction denoting the difference, for other distinct from this object |
| RationalModel.Rational.ScaleParts | Big_integer.h:509-521 | multiplying the parts and then norm() leaves the reduced form of the scaled pair |
| RationalModel.Rational.MulAssign | Big_integer.h:509-514 | operator*= leaves a reduced fraction denoting the product, for other distinct from this object |
| RationalModel.Rational.DivAssign | Big_integer.h:516-521 | operator/= (other read first) leaves a reduced fraction denoting the quotient, aliased or not |
| RationalModel.Rational.DivAssignAsWritten | Big_integer.h:516-521 | operator/= as written: the quotient for distinct operands, 1/d for x /= x |
| RationalModel.Rational.AddAssignPredivided | Matrix.h:499-507 | the predividing operator+= leaves a reduced fraction denoting the sum, for other distinct from this object |
| RationalModel.Rational.SubAssignPredivided | Matrix.h:509-517 | the predividing operator-= leaves a reduced fraction denoting the difference, for other distinct from this object |
| RationalModel.Rational.PredividedProduct | Matrix.h:519-532 | dividing the two products by gcd(n, od) * gcd(on, d) already gives the lowest-terms fraction of the product, so no norm() is needed |
| RationalModel.Rational.MulAssignPredivided | Matrix.h:519-532 | the predividing operator*= leaves a reduced fraction denoting the product without calling norm(), for other distinct from this object |
| RationalModel.Rational.DivAssignPredivided | Matrix.h:534-547 | the predividing operator/= leaves a reduced fraction denoting the quotient without calling norm() |
| RationalModel.Rational.Sign | Big_integer.h:523-531 | sign() is 1, -1 or 0 exactly as the value is positive, negative or zero |
| RationalModel.Rational.Equal | Big_integer.h:609-611 | operator== holds exactly when the values are equal, and exactly when the reduced parts are |
| RationalModel.Rational.Less | Big_integer.h:613-615 | operator< holds exactly when this value is smaller |
| RationalModel.Rational.ToString | Big_integer.h:533-540 | toString holds a '/' exactly when the denominator is not 1 |
| RationalModel.Rational.AsDecimal | Big_integer.h:542-563 | asDecimal(0) is the truncated quotient; otherwise a '-' for a negative value and the magnitude truncated to precision places in fixed-point text |
| RationalModel.Greater | Big_integer.h:617-619 | operator> holds exactly when the first value is larger |
| RationalModel.LessOrEqual | Big_integer.h:621-623 | operator<= holds exactly when the first value is at most the second |
| RationalModel.GreaterOrEqual | Big_integer.h:625-627 | operator>= holds exactly when the first value is at least the second |
| RationalModel.NotEqual | Big_integer.h:629-631 | operator!= holds exactly when the values differ |
| RationalModel.Sum | Big_integer.h:585-589 | operator+ returns a new reduced fraction denoting the sum |
| RationalModel.Difference | Big_integer.h:591-595 | operator- returns a new reduced fraction denoting the difference |
| RationalModel.Product | Big_integer.h:597-601 | operator* returns a new reduced fraction denoting the product |
| RationalModel.Quotient | Big_integer.h:603-607 | operator/ returns a new reduced fraction denoting the quotient |
| RationalModel.Read | Matrix.h:661-685 | operator>> yields a reduced fraction whose value is that of the numerator text over the denominator text |
| RationalModel.SplitToken | Matrix.h:664-676 | the split loop puts the text before the first '/' in s1 and the rest, '/' dropped, in s2, and flags whether there was a '/' |
| RationalModel.ReadToString | Matrix.h:661-685 | reading back the text toString prints gives the same value |
| RationalModel.WholeText | Matrix.h:679-681 | a token with no '/' reads as the integer it spells |
| RationalModel.FractionText | Matrix.h:683 | the token a/b reads as the fraction a over b |
| ResidueModel.PowerMod | Matrix.h:737-749 | reducing the base modulo p first does not change a power modulo p |
| ResidueModel.PrimeDividesBinom | Matrix.h:751-754 | a prime p divides C(p, k) for 0 < k < p |
| ResidueModel.BinomialTheorem | Matrix.h:751-754 | (a + 1)^n is the sum of C(n, k) a^k |
| ResidueModel.FreshmansDream | Matrix.h:751-754 | (a + 1)^p and a^p + 1 agree modulo a prime p |
| ResidueModel.FermatLittle | Matrix.h:751-754 | Fermat's little theorem: a^p is a modulo a prime p |
| ResidueModel.FermatInverse | Matrix.h:751-754 | for prime N and 0 < a < N, pown(a, N - 2) is the multiplicative inverse of a |
| ResidueModel.IntReduces | Matrix.h:705 | (v % N + N) % N with C++'s truncating % lies in range before the last % and gives v modulo N |
| ResidueModel.NegateWrap | Matrix.h:707-709 | -x + N computed in size_t, where -x wraps round 2^64, reduced modulo N is -x modulo N |
| ResidueModel.SameClass | Matrix.h:728-730 | representatives in [0, N) are congruent exactly when they are equal, so == on x is congruence |
| ResidueModel.SubUndoesAdd | Matrix.h:711-719 | adding b and then subtracting it gives back the residue |
| ResidueModel.NegateCancels | Matrix.h:707-714 | a residue plus its negation is zero |
| ResidueModel.PownStep | Matrix.h:741-747 | one round of pown keeps ans * val^k fixed modulo N while k is halved |
| ResidueModel.DivisionInverts | Matrix.h:751-754 | dividing by a non-zero residue modulo a prime and multiplying back gives the residue |
| ResidueModel.Residue.constructor | Matrix.h:705 | explicit Residue(int) holds v modulo N, in [0, N) |
| ResidueModel.Residue.Copy | Matrix.h:758 | the implicit copy has the same modulus and value |
| ResidueModel.Residue.Negate | Matrix.h:707-709 | unary minus returns -x modulo N |
| ResidueModel.Residue.AddAssign | Matrix.h:711-714 | operator+= leaves x + other.x modulo N |
| ResidueModel.Residue.SubAssign | Matrix.h:716-719 | operator-= leaves x - other.x modulo N |
| ResidueModel.Residue.MulAssign | Matrix.h:721-724 | operator*= leaves x * other.x modulo N, the product taken without overflow |
| ResidueModel.Residue.DivAssign | Matrix.h:751-754 | operator/= multiplies by other^(N-2); for prime N and non-zero other, the result times other is the old value |
| ResidueModel.Residue.Equal | Matrix.h:728 | operator== holds exactly when the residues are congruent modulo N |
| ResidueModel.Residue.NotEqual | Matrix.h:730 | operator!= holds exactly when the residues are not congruent |
| ResidueModel.Residue.ToInt | Matrix.h:732-734 | operator int gives the representative in [0, N) |
| ResidueModel.Pown | Matrix.h:737-749 | pown returns n^k modulo N, and 1 for k <= 0 |
| ResidueModel.Sum | Matrix.h:756-761 | operator+ returns the sum modulo N |
| ResidueModel.Difference | Matrix.h:763-768 | operator- returns the difference modulo N |
| ResidueModel.Product | Matrix.h:770-775 | operator* returns the product modulo N |
| ResidueModel.Quotient | Matrix.h:777-782 | operator/ returns, for prime N and a non-zero divisor, the residue that multiplied by the divisor gives the dividend |
| ResidueModel.SmallDivisor | Matrix.h:689-696 | a composite n has a divisor f >= 2 with f * f <= n, so trial division up to the square root suffices |
| ResidueModel.IsPrimeAsWritten | Matrix.h:689-696 | is_prime as written answers true exactly for primes and for 0 and 1 |
| ResidueModel.IsPrimeChecked | Matrix.h:689-696 | is_prime with 0 and 1 answered false is true exactly for primes |
| MatrixAlgebra.SubUndoesAdd | Matrix.h:877-893 | subtracting a matrix undoes adding it |
| MatrixAlgebra.AddCommutes | Matrix.h:1059-1064 | matrix addition commutes |
| MatrixAlgebra.NegIsScaleByMinusOne | Matrix.h:867-875 | unary minus is scaling by -1 |
| MatrixAlgebra.TransposeTwice | Matrix.h:961-969 | transposing twice gives the matrix back |
| MatrixAlgebra.ColumnOfTranspose | Matrix.h:1013-1019 | column j of a matrix is row j of its transpose |
| MatrixAlgebra.TraceOfSum | Matrix.h:982-989 | the trace of a sum is the sum of the traces |
| MatrixAlgebra.TraceOfTranspose | Matrix.h:982-989 | transposing keeps the trace |
| MatrixAlgebra.DotCombine | Matrix.h:1046-1057 | the accumulated dot product is linear in its first argument |
| MatrixAlgebra.DotUnit | Matrix.h:914-916 | a row of the identity picks out one entry in a dot product |
| MatrixAlgebra.IdentityTimes | Matrix.h:913-916 | the identity ans starts from is a left unit of the product |
| MatrixAlgebra.AddRowTimes | Matrix.h:932-949 | adding a multiple of one row to another commutes with multiplying on the right, so ans and the matrix can undergo the same step |
| MatrixAlgebra.DivideRowTimes | Matrix.h:953-957 | dividing a row commutes with multiplying on the right |
| MatrixAlgebra.ApplyAppend | Matrix.h:795-828 | applying two runs of row operations is applying their concatenation |
| MatrixAlgebra.Leading | Matrix.h:994-1005 | the column of a row's first non-zero entry, every entry before it zero |
| MatrixAlgebra.ZeroRowsAtBottom | Matrix.h:991-1007 | in echelon form the rows below an all-zero row are all zero, so rank may stop at the first one |
| MatrixAlgebra.EchelonLeadingAtLeast | Matrix.h:971-980 | a square matrix in echelon form has row r start at column r or later |
| MatrixAlgebra.UpperTriangular | Matrix.h:971-980 | a square matrix in echelon form is upper triangular: every entry below the diagonal is zero |
| MatrixAlgebra.StepsUndone | Matrix.h:917-957 | invert's steps, row additions between different rows and divisions by non-zero entries, can each be undone, and undoing a run of them restores the matrix it started from |
| MatrixAlgebra.ApplyStepsAppend | Matrix.h:917-957 | applying two runs of invert's steps is applying their concatenation |
| MatrixAlgebra.LeftInverseIsRight | Matrix.h:911-959 | if ans is the identity transformed by a run of invert's steps and ans times A is the identity, then A times ans is the identity too |
| Determinants.TriangularDeterminant | Matrix.h:975-979 | the determinant of an upper-triangular matrix is the product of its diagonal, the product det's loop forms |
| Determinants.AddRowKeepsDeterminant | Matrix.h:811-824 | adding a multiple of one row to a different row, Gauss_method's only operation, keeps the determinant |
| Determinants.ApplyKeepsDeterminant | Matrix.h:795-828 | any run of such row additions keeps the determinant |
| MatrixModel.Eliminated | Matrix.h:816-824 | subtracting the pivot row times arr[j][i] / arr[s][i] from row j zeroes arr[j][i], changes no other row and leaves row j alone before column i |
| MatrixModel.EchelonDone | Matrix.h:797-800 | when the rows or the columns run out, the matrix is in echelon form |
| MatrixModel.EchelonStep | Matrix.h:811-825 | one pivot column of Gauss_method extends the echelon prefix by one row and one column |
| MatrixModel.EchelonSkip | Matrix.h:808-810 | a column with no pivot from row str_ind on is done without a new pivot row |
| MatrixModel.AddRowKeeps | Matrix.h:812-823 | adding a multiple of a row that is zero before column i changes only the target row, and not before column i |
| MatrixModel.ReducedStep | Matrix.h:932-951 | one pivot column of invert clears the column in every other row and extends the reduced prefix |
| MatrixModel.Diagonal | Matrix.h:953-957 | a square matrix reduced with a pivot in every row is diagonal with a non-zero diagonal |
| MatrixModel.DividedDiagonal | Matrix.h:953-957 | dividing each row of such a diagonal matrix by its diagonal entry gives the identity |
| MatrixModel.ListGridOfShape | Matrix.h:840-857 | lists of exactly M rows of N entries initialise exactly that matrix |
| MatrixModel.IdentityGrid | Matrix.h:913-916 | ans built as zeros with ones on the diagonal is the identity |
| MatrixModel.DivideRowOf | Matrix.h:954-956 | the division loop divides one row of ans by the diagonal entry |
| MatrixModel.Matrix.constructor | Matrix.h:830-836 | Matrix() holds M rows of N zeros |
| MatrixModel.Matrix.FromArray | Matrix.h:838 | Matrix(array) holds the given rows |
| MatrixModel.Matrix.Copy | Matrix.h:868 | the implicit copy holds the same rows |
| MatrixModel.Matrix.FromLists | Matrix.h:840-857 | the initializer-list constructor keeps the first M rows and N entries of each, zero elsewhere |
| MatrixModel.Matrix.Row | Matrix.h:859-865 | operator[] and getRow give row index, which is column index of the transpose |
| MatrixModel.Matrix.SetEntry | Matrix.h:859-861 | writing through operator[] changes exactly one entry |
| MatrixModel.Matrix.GetColumn | Matrix.h:1013-1019 | getColumn gives column index top to bottom, which is row index of the transpose |
| MatrixModel.Matrix.Negate | Matrix.h:867-875 | unary minus returns the entry-wise negation |
| MatrixModel.Matrix.AddAssign | Matrix.h:877-884 | operator+= leaves the entry-wise sum |
| MatrixModel.Matrix.SubAssign | Matrix.h:886-893 | operator-= leaves the entry-wise difference |
| MatrixModel.Matrix.ScaleAssign | Matrix.h:895-902 | operator*=(Field) multiplies every entry by val |
| MatrixModel.Matrix.Transposed | Matrix.h:961-969 | transposed returns the N x M transpose |
| MatrixModel.Matrix.Trace | Matrix.h:982-989 | trace returns the sum of the diagonal |
| MatrixModel.Matrix.FindPivot | Matrix.h:801-807 | the pivot search returns the first row from str_ind on with a non-zero entry in column i, or M |
| MatrixModel.Matrix.AddRowTail | Matrix.h:811-815 | adding the pivot row from column i on is adding the whole row, its earlier entries being zero |
| MatrixModel.Matrix.SubtractRowTail | Matrix.h:820-823 | subtracting coeff times the pivot row from column i on is the whole row operation |
| MatrixModel.Matrix.EliminateBelow | Matrix.h:816-824 | the elimination loop zeroes column i below the pivot by row operations, leaving rows up to the pivot and earlier columns alone |
| MatrixModel.Matrix.ClearColumn | Matrix.h:811-824 | one column of Gauss_method makes the pivot entry non-zero and zeroes the column below it by row operations |
| MatrixModel.Matrix.Gauss | Matrix.h:795-828 | Gauss_method reaches row echelon form using only additions of a multiple of one row to another |
| MatrixModel.Matrix.Rank | Matrix.h:991-1007 | rank counts the non-zero rows of an echelon form reached from the matrix by row additions |
| MatrixModel.Matrix.Det | Matrix.h:971-980 | det returns the determinant of the matrix, defined by cofactor expansion: it is the diagonal product of an upper-triangular echelon form reached by row additions, which keep the determinant |
| MatrixModel.Matrix.AddRowBoth | Matrix.h:932-937 | invert's row addition applied to the matrix and to ans keeps the matrix equal to ans times the original |
| MatrixModel.Matrix.SubtractRowBoth | Matrix.h:945-949 | invert's elimination step applied to both keeps the matrix equal to ans times the original |
| MatrixModel.Matrix.EliminateOthers | Matrix.h:938-950 | invert clears column i in every row but the pivot row, keeping the matrix equal to ans times the original |
| MatrixModel.Matrix.EliminateRow | Matrix.h:939-949 | one pass of the inner loop clears row j's entry in column i and touches no other row |
| MatrixModel.Matrix.ReduceColumn | Matrix.h:932-951 | one pivot column of invert, applied to the matrix and to ans, extends the reduced prefix by one row and one column and keeps the matrix equal to ans times the original |
| MatrixModel.Matrix.ReduceWith | Matrix.h:917-952 | Gauss-Jordan elimination leaves a reduced matrix still equal to ans times the original |
| MatrixModel.Matrix.DivideByDiagonal | Matrix.h:953-957 | dividing ans by the diagonal of a fully reduced matrix gives the inverse of the original |
| MatrixModel.Matrix.Invert | Matrix.h:911-959 | on success invert replaces the matrix by its two-sided inverse: new times old and old times new are both the identity |
| MatrixModel.Matrix.Inverted | Matrix.h:904-909 | inverted returns the two-sided inverse and leaves the matrix alone |
| MatrixModel.Matrix.Equal | Matrix.h:1021-1030 | operator== holds exactly when all entries agree |
| MatrixModel.Matrix.NotEqual | Matrix.h:1032-1034 | operator!= holds exactly when some entry differs |
| MatrixModel.Product | Matrix.h:1046-1057 | operator* returns the matrix product |
| MatrixModel.MulAssign | Matrix.h:1036-1044 | operator*=(Matrix) replaces the matrix by its product with other |
| MatrixModel.Sum | Matrix.h:1059-1064 | operator+ returns the entry-wise sum |
| MatrixModel.Difference | Matrix.h:1066-1071 | operator- returns the entry-wise difference |
| MatrixModel.Scaled | Matrix.h:1073-1085 | matr * value and value * matr return the scaled copy |
| StringModel.AppendedMatches | String_simple.h:127-134 | a text ending in t contains t at its end, so find has something to find |
| StringModel.MatchSurvivesAppend | String_simple.h:127-134 | an occurrence of t in s is still an occurrence in s followed by more text |
| StringModel.LexLessIrreflexive | String_simple.h:200-210 | no text is less than itself, which is what operator< should give |
| StringModel.LexLessAsymmetric | String_simple.h:200-210 | a < b excludes b < a |
| StringModel.LexLessTransitive | String_simple.h:200-210 | a < b and b < c give a < c |
| StringModel.LexLessTotal | String_simple.h:200-210 | two texts are equal or ordered one way or the other |
| StringModel.PrefixIsLess | String_simple.h:200-210 | a proper prefix is less than the text it begins |
| StringModel.LexLessAfterPrefix | String_simple.h:200-210 | texts that agree up to i and differ at i are ordered like their chars at i, and a text that ends at i comes first |
| StringModel.StrLen | String_simple.h:32-34 | strlen is the index of the first NUL |
| StringModel.Memcpy | String_simple.h:12 | memcpy copies count chars from the source range into the target range and changes nothing else in the target |
| StringModel.String.Contents | String_simple.h:6-8 | the text has str_size - 1 chars |
| StringModel.String.Length | String_simple.h:71-77 | length() and size() are the length of the text, and the text and its terminator fit in the buffer |
| StringModel.String.Capacity | String_simple.h:79-81 | capacity() is the buffer length minus the terminator, and is at least length() |
| StringModel.String.Empty | String_simple.h:152-154 | empty() exactly when the text is empty |
| StringModel.String.Blank | String_simple.h:28-30 | String(size_t) gives a fresh terminated buffer of length + 1 chars, with length() and capacity() both equal to length |
| StringModel.String.FromCString | String_simple.h:32-34 | the text is the C string up to its first NUL, and the capacity equals the length |
| StringModel.String.Filled | String_simple.h:36-38 | the text is length copies of x, and the capacity equals the length |
| StringModel.String.constructor | String_simple.h:40 | the default String is empty, with capacity 0 |
| StringModel.String.Copy | String_simple.h:42-44 | the copy has the same text and capacity in a buffer of its own |
| StringModel.String.Reallocate | String_simple.h:10-16 | resize keeps the text and the size and moves them into a fresh buffer of the new capacity |
| StringModel.String.At | String_simple.h:63-69 | operator[] gives the char at the index, and the terminator at index size() |
| StringModel.String.SetAt | String_simple.h:67-69 | writing through operator[] replaces exactly that char and keeps the capacity |
| StringModel.String.Front | String_simple.h:97-103 | front() is the first char, or the terminator of an empty text |
| StringModel.String.Back | String_simple.h:105-111 | back() is the last char of a non-empty text |
| StringModel.String.Assign | String_simple.h:46-55 | after operator= the text is other's text; the old capacity stays when str_size > other.size(), and otherwise the capacity is other's |
| StringModel.String.Overwrite | String_simple.h:47-51 | the first branch of operator= puts other's text in the same buffer |
| StringModel.String.Swap | String_simple.h:57-61 | the two strings exchange texts and capacities |
| StringModel.String.PopBack | String_simple.h:83-86 | pop_back drops the last char and keeps the buffer |
| StringModel.String.PushBack | String_simple.h:88-95 | push_back appends the char, and the capacity becomes 2 * capacity + 1 exactly when the buffer was full |
| StringModel.String.Append | String_simple.h:118-125 | operator+=(String) appends other's text, and the capacity becomes the sum of the lengths exactly when the buffer was too small |
| StringModel.String.CopyAfterText | String_simple.h:122-123 | with room enough, other's text goes after the text in the same buffer |
| StringModel.String.MatchesAtIndex | String_simple.h:18-25 | are_equal_substrings holds exactly when substring occurs at start |
| StringModel.String.Find | String_simple.h:127-134 | find returns the first index where substring occurs, or length() when it occurs nowhere |
| StringModel.String.RFind | String_simple.h:136-144 | rfind returns the last index where substring occurs, or length() when it occurs nowhere |
| StringModel.String.Substr | String_simple.h:146-150 | substr gives a fresh string of count chars copied from start, with capacity count; a range inside the text gives that slice of the text |
| StringModel.String.Clear | String_simple.h:156-159 | clear empties the text and keeps the buffer and the capacity |
| StringModel.String.ShrinkToFit | String_simple.h:161-164 | shrink_to_fit keeps the text and makes the capacity equal to the length |
| StringModel.Equal | String_simple.h:184-194 | operator== holds exactly when the texts are equal |
| StringModel.NotEqual | String_simple.h:196-198 | operator!= holds exactly when the texts differ |
| StringModel.LessAsWritten | String_simple.h:200-210 | operator< as written holds exactly when second is not less than first, which is first <= second for texts without NUL chars |
| StringModel.Less | String_simple.h:200-210 | corrected operator< holds exactly when first comes strictly before second |
| StringModel.Greater | String_simple.h:212-214 | operator> over the corrected operator< holds exactly when second comes strictly before first |
| StringModel.LessEq | String_simple.h:216-218 | operator<= over the corrected operator< holds exactly when the texts are equal or first comes before second |
| StringModel.GreaterEq | String_simple.h:220-222 | operator>= over the corrected operator< holds exactly when the texts are equal or second comes before first |
| StringModel.GreaterAsWritten | String_simple.h:212-214 | operator> as written, second < first with the written operator<, holds for a NUL-free second exactly when first does not come strictly before second, so equal texts compare greater |
| StringModel.LessEqAsWritten | String_simple.h:216-218 | operator<= as written holds for a NUL-free second exactly when first comes strictly before second, so equal texts do not compare less or equal |
| StringModel.GreaterEqAsWritten | String_simple.h:220-222 | operator>= as written holds for a NUL-free first exactly when second comes strictly before first, so equal texts do not compare greater or equal |
| StringModel.Concat | String_simple.h:224-228 | first + second is a fresh string holding first's text followed by second's |
| StringModel.ConcatChar | String_simple.h:230-234 | first + c is a fresh string holding first's text followed by c |
| StringModel.PrependChar | String_simple.h:236-240 | c + second is a fresh string holding c followed by second's text |
| StringModel.SkipBlanks | String_simple.h:245-248 | the first index at or after i that is neither space nor newline, with only spaces and newlines before it |
| StringModel.TokenEnd | String_simple.h:249-252 | the first index at or after i that holds a space, a newline or EOF, with no delimiter before it |
| StringModel.Read | String_simple.h:242-254 | operator>> leaves the string holding the first token after the leading blanks, and takes that token and the delimiter after it from the input |
| DequeModel.Next | Deque.h:35-43 | operator++ keeps indInBlock_ within the block and moves the position one slot forward |
| DequeModel.Prev | Deque.h:45-53 | operator-- keeps indInBlock_ within the block and moves the position one slot back |
| DequeModel.Distance | Deque.h:95-97 | the difference of two iterators is the number of slots between them |
| DequeModel.Compare | Deque.h:115-117 | operator<=> orders iterators by position: negative, zero or positive as the first comes before, with or after the second |
| DequeModel.TruncSplit | Deque.h:67-77 | C++'s truncating / and % by 16 rebuild the dividend and leave a remainder in (-16, 16) |
| DequeModel.AdvancePos | Deque.h:67-77 | operator+= with any int, negative too, keeps indInBlock_ in range and moves the position by exactly that amount |
| DequeModel.DistanceOfAdvance | Deque.h:83-97 | (it + k) - it == k for every int k |
| DequeModel.PosInjective | Deque.h:95-97 | two in-range iterators at the same position are the same iterator |
| DequeModel.RetreatUndoesAdvance | Deque.h:79-93 | moving back by k undoes moving forward by k |
| DequeModel.NextPrev | Deque.h:35-53 | ++ then -- and -- then ++ are the identity |
| DequeModel.SameIsEqual | Deque.h:111-113 | operator== on in-range iterators holds exactly when block and slot are equal |
| DequeModel.SlotOfIter | Deque.h:190-193 | an iterator at a non-negative position sits in block position / 16 at slot position % 16 |
| DequeModel.ShiftSlot | Deque.h:190-193 | putting left blocks in front changes only the block part of a slot number |
| DequeModel.FreshBlocks | Deque.h:180-185 | reserve's new blocks are n fresh, pairwise distinct blocks of 16 slots |
| DequeModel.Rebase | Deque.h:192-193 | the iterator rebuilt from a slot number is in range and sits 16 * left slots further once left blocks are put in front |
| DequeModel.HoldsRead | Deque.h:290-296 | operator[] reads element k at begin + k |
| DequeModel.HoldsWrite | Deque.h:290-292 | writing at begin + k replaces element k and no other |
| DequeModel.HoldsPushBack | Deque.h:317-322 | constructing at end and stepping end appends the value |
| DequeModel.HoldsPushFront | Deque.h:330-335 | constructing before begin and stepping begin back prepends the value |
| DequeModel.HoldsPopBack | Deque.h:338-341 | stepping end back drops the last element |
| DequeModel.HoldsPopFront | Deque.h:343-346 | stepping begin forward drops the first element |
| DequeModel.HoldsShift | Deque.h:186-193 | with the old blocks copied from block left on and both iterators 16 * left slots further, the same elements are designated in the same order |
| DequeModel.PrefixStep | Deque.h:256-258 | the copy constructor's step puts element i in slot i and keeps the slots before it |
| DequeModel.PrefixHolds | Deque.h:254-271 | once the first n slots hold the elements, begin at slot 0 and end at slot n hold them all |
| DequeModel.InsertStep | Deque.h:353-356 | insert's step copies element ind - 1 to ind, which moves the hole one place left; the final store puts the value in the hole |
| DequeModel.ErasedUpTo | Deque.h:372-374 | erase's loop state keeps the length of the sequence |
| DequeModel.EraseStart | Deque.h:370 | erase's loop starts from the elements themselves |
| DequeModel.EraseStep | Deque.h:372-374 | erase's step copies element ind + 1 to ind, extending the shifted part by one |
| DequeModel.EraseLast | Deque.h:372-375 | after the loop, dropping the last slot leaves the elements without the erased one |
| DequeModel.Cells | Deque.h:9 | one value per block pointer |
| DequeModel.CellsWithin | Deque.h:186-188 | blocks copied into the new pointer array hold the same values there |
| DequeModel.Deque.StoreAt | Deque.h:99-105 | writing through an iterator changes that slot and no other |
| DequeModel.Deque.Size | Deque.h:286-288 | size() is the number of elements |
| DequeModel.Deque.Get | Deque.h:290-296 | operator[] gives element index |
| DequeModel.Deque.At | Deque.h:298-310 | at() fails with out_of_range exactly when index >= size(), and otherwise gives element index |
| DequeModel.Deque.Set | Deque.h:290-292 | writing through operator[] replaces element index and keeps blocks and iterators |
| DequeModel.Deque.Create | Deque.h:198-204 | create(cnt) gives fresh blocks, begin at slot 0 and end at slot cnt when capacity is (cnt + 16) / 16 |
| DequeModel.Deque.constructor | Deque.h:214-216 | the default deque has one block and no elements |
| DequeModel.Deque.Filled | Deque.h:236-252 | Deque(cnt, value) holds cnt copies of value in (cnt + 16) / 16 blocks |
| DequeModel.Deque.Copy | Deque.h:254-271 | the copy holds other's elements in blocks of its own |
| DequeModel.Deque.CopyFrom | Deque.h:256-270 | the copy constructor's loop puts element i of other in slot i for every i, leaving other unchanged |
| DequeModel.Deque.CopyAt | Deque.h:258 | element i of other is constructed in slot i and the slots before it keep their elements |
| DequeModel.Deque.Swap | Deque.h:279-284 | the two deques exchange their elements |
| DequeModel.Deque.Assign | Deque.h:273-277 | after operator= the deque holds other's elements |
| DequeModel.Deque.Reserve | Deque.h:178-196 | reserve(left, right) keeps the elements and their order, adds left + right blocks, and moves both iterators 16 * left slots |
| DequeModel.Deque.Install | Deque.h:194-195 | a pointer array, its iterators and the elements they hold replace the old ones |
| DequeModel.Deque.Repositioned | Deque.h:190-193 | begin and end are rebuilt 16 * left slots further, in range |
| DequeModel.Deque.Relocated | Deque.h:179-188 | the new pointer array has left fresh blocks, the old blocks in order, then right fresh blocks, all distinct |
| DequeModel.Deque.PushBack | Deque.h:312-323 | push_back appends the value, and the block count doubles exactly when end sat in the last slot |
| DequeModel.Deque.StoreBack | Deque.h:317-322 | with a free slot at end, push_back appends the value in the same blocks |
| DequeModel.Deque.PushFront | Deque.h:325-336 | push_front prepends the value, and the block count doubles exactly when begin sat in slot 0 of block 0 |
| DequeModel.Deque.StoreFront | Deque.h:330-335 | with a free slot before begin, push_front prepends the value in the same blocks |
| DequeModel.Deque.PopBack | Deque.h:338-341 | pop_back drops the last element and keeps the blocks |
| DequeModel.Deque.PopFront | Deque.h:343-346 | pop_front drops the first element and keeps the blocks |
| DequeModel.Deque.Insert | Deque.h:348-365 | insert puts the value at iter's index, with the earlier elements before it and the later ones after it in order |
| DequeModel.Deque.ShiftRight | Deque.h:351-357 | insert's loop moves the elements from index on one place right and stores the value at index |
| DequeModel.Deque.Erase | Deque.h:367-384 | erase removes exactly the element at iter's index and keeps the others in order, in the same blocks |
| DequeModel.Deque.ShiftLeft | Deque.h:370-374 | erase's loop moves the elements after index one place left |
| DequeModel.Deque.MoveDown | Deque.h:373 | one step of erase's loop copies element ind + 1 to ind |
| SeqEdits.Inserted | Deque.h:348-365 | insert's result: one element longer, the value at index, the elements before index in place and the ones from index on one place later |
| SeqEdits.Erased | Deque.h:367-384 | erase's result: one element shorter, the elements before index in place and the ones after it one place earlier |
| SeqEdits.EraseInserted | Deque.h:348-384 | erasing at the index where a value was inserted gives back the original elements |
| SeqEdits.InsertErased | Deque.h:348-384 | inserting the erased element back at its index gives back the original elements |
| StackAllocatorModel.SizeSub | List.h:53 | N - top in size_t arithmetic: the difference when top <= N, and the difference plus 2^64 once top has passed N |
| StackAllocatorModel.RoundUp | List.h:55 | the first multiple of the alignment at or after p, less than one alignment further |
| StackAllocatorModel.MultiplesApart | List.h:55 | two multiples of the alignment less than one alignment apart are equal |
| StackAllocatorModel.RoundUpLeast | List.h:55 | no multiple of the alignment lies between p and its rounded-up value |
| StackAllocatorModel.Align | List.h:55 | std::align gives an aligned address within one alignment of ptr whose size bytes fit in the space, and fails only when no aligned address leaves room |
| StackAllocatorModel.PlacementAsWritten | List.h:52-58 | allocate as written hands out an address within one alignment of the top, but advances top by cnt * sizeof(T) from its old value |
| StackAllocatorModel.AsWrittenOverlap | List.h:52-58 | char, int, char from an empty buffer: the second char is placed inside the int |
| StackAllocatorModel.Placement | List.h:52-58 | corrected allocate: an aligned address at or after the top, top moved past the padding and the whole block and still within the buffer; refused exactly when no aligned address leaves room |
| StackAllocatorModel.Serve | List.h:52-58 | every block the corrected allocator grants lies inside the free part of the buffer |
| StackAllocatorModel.ServeDisjoint | List.h:52-58 | the blocks the corrected allocator grants are in address order and never overlap |
| StackAllocatorModel.StackStorage.constructor | List.h:5-26 | a new storage of N bytes has top 0 |
| StackAllocatorModel.StackAllocator.Default | List.h:35 | the default allocator has no storage |
| StackAllocatorModel.StackAllocator.constructor | List.h:36 | the allocator draws on the given storage |
| StackAllocatorModel.StackAllocator.Rebind | List.h:38-39 | the converting copy shares the storage, so it compares equal to its source |
| StackAllocatorModel.StackAllocator.Assign | List.h:41-45 | operator= takes the other allocator's storage, after which the two compare equal |
| StackAllocatorModel.StackAllocator.AllocateAsWritten | List.h:52-58 | the address and the new top are those of PlacementAsWritten |
| StackAllocatorModel.StackAllocator.Allocate | List.h:52-58 | the address and the new top are those of Placement; a refusal leaves top as it was |
| StackAllocatorModel.StackAllocator.Deallocate | List.h:60 | deallocate leaves top where it is |
| ListModel.Node.constructor | List.h:79-86 | a new node holds the value and links to itself |
| ListModel.Node.Sentinel | List.h:79-82 | the sentinel links to itself |
| ListModel.RingInserted | List.h:102-107 | inserting a node into the element sequence splices it into the ring of nodes at the same place |
| ListModel.RingErased | List.h:97-100 | erasing a node from the element sequence removes it from the ring at the same place |
| ListModel.SameAhead | List.h:133-136 | in a linked ring, walking next from two equal nodes reaches equal nodes |
| ListModel.LinkedDistinct | List.h:79-82 | a linked ring that starts and ends at the sentinel lists no node twice apart from the sentinel |
| ListModel.SpliceLinked | List.h:102-107 | add's four link updates leave the ring with the new node spliced in linked both ways |
| ListModel.UnspliceLinked | List.h:97-100 | connect's two link updates leave the ring without the removed node linked both ways |
| ListModel.List.Position | List.h:129-131 | an iterator's position is its index among the elements, size() for end() |
| ListModel.List.RingAt | List.h:129-131 | every node of the ring is a member of the list at the position its index gives |
| ListModel.List.RingDistinct | List.h:79-89 | in a valid list the sentinel is the only node listed twice |
| ListModel.List.LinkAt | List.h:133-147 | neighbouring nodes of the ring are linked both ways |
| ListModel.List.constructor | List.h:190 | the default list is the sentinel alone, with no elements |
| ListModel.List.Connect | List.h:97-100 | connect makes second follow first |
| ListModel.List.Add | List.h:102-107 | add links newNode between prevNode and nextNode |
| ListModel.List.Size | List.h:291-293 | size() is the number of elements |
| ListModel.List.Begin | List.h:343-353 | begin() is the node at position 0, end() when the list is empty |
| ListModel.List.Next | List.h:133-136 | operator++ moves to the next position, and from end() round to begin() |
| ListModel.List.Prev | List.h:144-147 | operator-- moves to the previous position, and from begin() round to end() |
| ListModel.List.CountNodes | List.h:391-399 | walking next from the sentinel back to it meets exactly listSize nodes |
| ListModel.List.Insert | List.h:308-318 | insert puts a fresh node holding the value just before iter's position, and every other element keeps its order |
| ListModel.List.Attach | List.h:316-317 | linking the new node in before iter inserts it, and its value, at iter's position |
| ListModel.List.Record | List.h:316 | once the node is linked in, the counter grows and the node and its value hold position k |
| ListModel.List.Erase | List.h:320-325 | erase removes exactly the element at iter's position and its node, keeping the others in order |
| ListModel.List.Forget | List.h:321 | once the node is linked out, the counter shrinks and position k leaves the elements |
| ListModel.List.PushBack | List.h:327-329 | push_back appends the value in a fresh node |
| ListModel.List.PushFront | List.h:331-333 | push_front prepends the value in a fresh node |
| ListModel.List.PopFront | List.h:335-337 | pop_front drops the first element |
| ListModel.List.PopBack | List.h:339-341 | pop_back drops the last element |
| ListModel.List.Append | List.h:205-216 | the loop of List(cnt, value) appends cnt copies of value |
| ListModel.List.PushBackBeside | List.h:327-329 | push_back appends the value and leaves another list valid and unchanged |
| ListModel.List.AppendAll | List.h:246-258 | the copy constructor's loop appends other's elements in order and leaves other unchanged |
| ListModel.List.CopyNext | List.h:248-250 | one pass of the copy loop appends element i of other and moves the other iterator to position i + 1 |
| ListModel.List.Filled | List.h:205-216 | List(cnt, value) holds cnt copies of value |
| ListModel.List.Sized | List.h:192-203 | List(cnt) holds cnt value-initialised elements |
| ListModel.List.Copy | List.h:246-258 | the copy holds other's elements in order |
| ListModel.List.PopFrontBeside | List.h:335-337 | pop_front drops the first element and leaves another list valid |
| ListModel.List.DropFront | List.h:277-279 | the second loop of operator= drops the sz old elements from the front |
| ListModel.List.Assign | List.h:260-285 | corrected operator=: the list holds other's elements and other is unchanged, self-assignment included |
| ListModel.List.SetSize | List.h:280 | listSize = other.listSize finds the counter already equal to the number of elements |
| ListModel.List.SelfAssignAsWritten | List.h:264-275 | on self-assignment the first loop of operator= as written ends only when the list is empty |
| UnorderedMapModel.NodeList.constructor | Unordered_map.h:142 | the inner list starts empty |
| UnorderedMapModel.NodeList.Moved | Unordered_map.h:202-211 | the move constructor as intended takes other's elements and leaves other empty; as written it mislinks an empty other (see "## Findings") |
| UnorderedMapModel.NodeList.MoveFrom | Unordered_map.h:213-227 | move assignment changes nothing on a self-move, and otherwise takes other's elements and leaves other empty; as written it mislinks an empty other like the move constructor |
| UnorderedMapModel.MoveLinksAsWritten | Unordered_map.h:202-211 | the six link updates as written hand a non-empty list over intact, but for an empty other leave the new sentinel's next at other's sentinel and its prev at itself |
| UnorderedMapModel.MoveOfEmptyAsWritten | Unordered_map.h:202-211 | moving from a freshly made, empty list as written leaves the new list starting at the other list's sentinel |
| UnorderedMapModel.MoveLinks | Unordered_map.h:202-211 | the corrected move hands a non-empty list over as written and leaves the new sentinel of an empty one linked to itself; other's sentinel is self-linked either way |
| UnorderedMapModel.MoveOfEmpty | Unordered_map.h:202-211 | moving from a freshly made, empty list as intended leaves both lists empty and well linked |
| UnorderedMapModel.NodeList.Size | Unordered_map.h:254-256 | size() is the number of elements |
| UnorderedMapModel.NodeList.Emplace | Unordered_map.h:265-268 | emplace(iter, node) puts the element just before iter's position |
| UnorderedMapModel.NodeList.Erase | Unordered_map.h:270-275 | erase removes exactly the element at iter's position |
| UnorderedMapModel.NodeList.Clear | Unordered_map.h:136-140 | clear leaves the list empty |
| UnorderedMapModel.BucketsOf | Unordered_map.h:406-411 | each entry's bucket is its key's hash modulo the bucket count |
| UnorderedMapModel.BucketsOfInserted | Unordered_map.h:610-618 | inserting an entry inserts its bucket at the same position |
| UnorderedMapModel.BucketsOfErased | Unordered_map.h:549-562 | erasing an entry erases its bucket at the same position |
| UnorderedMapModel.MultisetInserted | Unordered_map.h:610-618 | inserting adds exactly the inserted element to the multiset of elements |
| UnorderedMapModel.HasKeyMultiset | Unordered_map.h:636-649 | whether a key is present depends only on the multiset of entries |
| UnorderedMapModel.ReinsertedKeyFresh | Unordered_map.h:646-648 | while reserve emplaces the entries again, the next entry's key is not yet present |
| UnorderedMapModel.MultisetPrefix | Unordered_map.h:646-648 | one more entry re-emplaced adds that entry to the multiset |
| UnorderedMapModel.EmplaceKeepsTable | Unordered_map.h:610-618 | emplacing a new key at its bucket's head, and making it the head, keeps the keys unique and the buckets chained |
| UnorderedMapModel.EraseKeepsTable | Unordered_map.h:549-562 | erase, with the bucket head moved as the source moves it, keeps the keys unique and the buckets chained, and the erased key is gone |
| UnorderedMapModel.LoadFactorReached | Unordered_map.h:607-609 | with max_load_factor 1, the integer load factor reaches it exactly when size() reaches the bucket count |
| UnorderedMapModel.UnorderedMap.constructor | Unordered_map.h:420 | a new map has no entries and one bucket whose head is end() |
| UnorderedMapModel.UnorderedMap.GetHash | Unordered_map.h:406-411 | get_hash is 0 without buckets, and otherwise the key's hash modulo the bucket count |
| UnorderedMapModel.UnorderedMap.Size | Unordered_map.h:468-470 | size() is the number of entries |
| UnorderedMapModel.UnorderedMap.Find | Unordered_map.h:573-595 | find returns the position of the entry holding the key, and end() exactly when no entry holds it |
| UnorderedMapModel.UnorderedMap.Emplace | Unordered_map.h:597-619 | emplace returns false and changes nothing when the key is present; otherwise it adds exactly the new entry and returns true; either way the position holds the key; below the load limit the bucket count stays |
| UnorderedMapModel.UnorderedMap.LinkAtHead | Unordered_map.h:610-618 | a new entry goes in at its bucket's head and becomes the head, keeping the map invariant and adding exactly that entry |
| UnorderedMapModel.UnorderedMap.Insert | Unordered_map.h:496-508 | insert adds the pair exactly when its key is absent, and otherwise leaves the entries unchanged |
| UnorderedMapModel.UnorderedMap.Index | Unordered_map.h:510-524 | operator[] gives the key's entry, adding (key, Value()) first exactly when the key was absent |
| UnorderedMapModel.UnorderedMap.At | Unordered_map.h:526-540 | at succeeds exactly when the key is present and then gives its entry; otherwise out_of_range |
| UnorderedMapModel.UnorderedMap.Erase | Unordered_map.h:549-562 | erase removes exactly that entry, moves its bucket's head as the source does, keeps the map invariant, and the key is gone |
| UnorderedMapModel.UnorderedMap.MoveOut | Unordered_map.h:639-643 | reserve's first loop moves every entry out in order and leaves the list empty |
| UnorderedMapModel.UnorderedMap.Reserve | Unordered_map.h:636-649 | reserve keeps the same entries, and the bucket count becomes count whenever count >= size() |
| BucketChains.EmptyChained | Unordered_map.h:420 | with no entries and every head at end(), the bucket invariant holds |
| BucketChains.Contiguous | Unordered_map.h:573-583 | every entry between a bucket's head and an entry of that bucket belongs to that bucket too |
| BucketChains.RunEnds | Unordered_map.h:576-582 | find's walk from the head may stop at end() or at another bucket's entry: every entry of the bucket lies before that point |
| BucketChains.Shifted | Unordered_map.h:612-617 | linking an entry in at position p moves the heads at or after p one place on |
| BucketChains.Unshifted | Unordered_map.h:549-562 | unlinking the entry at p moves the heads after p one place back |
| BucketChains.InsertedHeads | Unordered_map.h:610-618 | after emplace, bucket h's head stays at the position where the entry went in |
| BucketChains.InsertKeepsHeadsHold | Unordered_map.h:610-618 | after emplace every head that is not end() still holds an entry of its own bucket |
| BucketChains.InsertKeepsHeadsFirst | Unordered_map.h:610-618 | after emplace no entry comes before its bucket's head |
| BucketChains.InsertKeepsRunsLinked | Unordered_map.h:610-618 | after emplace every entry that is not its bucket's head follows an entry of the same bucket |
| BucketChains.InsertKeepsChained | Unordered_map.h:610-618 | emplace's linking keeps the bucket invariant |
| BucketChains.HeadAfterErase | Unordered_map.h:549-562 | the erased entry's bucket keeps its head unless the entry was the head; then the head becomes the next entry or end() |
| BucketChains.ErasedHeads | Unordered_map.h:549-562 | erase keeps one head per bucket |
| BucketChains.EraseKeepsHeadsHold | Unordered_map.h:549-562 | after erase every head that is not end() holds an entry of its own bucket |
| BucketChains.EraseKeepsHeadsFirst | Unordered_map.h:549-562 | after erase no entry comes before its bucket's head |
| BucketChains.EraseKeepsRunsLinked | Unordered_map.h:549-562 | after erase every entry that is not its bucket's head follows an entry of the same bucket |
| BucketChains.EraseKeepsChained | Unordered_map.h:549-562 | erase keeps the bucket invariant |

## Left out

- Geometry.h is not part of this model. It is floating-point geometry (`double` points, `sqrt`, `atan2`, `cos`, `sin` and epsilon comparisons).
- The conversions of Rational to `double` (Big_integer.h:565-578, Matrix.h:591-606) are left out, because they are floating point.
- The stream operators `<<` and `>>` of BigInteger (Big_integer.h:405-415, Matrix.h:409-419) and of Residue are left out, because they are I/O.
  - The Rational `operator>>` and the String `operator>>` are modelled on the text they read, given as a parameter.
  - The String `operator<<` is left out.
- Exception rollback is left out: the `try`/`catch` blocks that undo a half-built container when an element copy or an allocation throws. Element copies and allocations are taken not to throw.
- Destructors release memory; the model has no memory release. What Shared_ptr.h's destructors do to the counters is modelled, and `delete_obj`/`delete_block` are counted as events.
- Allocator plumbing is left out:
  - `allocator_traits` rebinding, the `propagate_on_*` traits, `select_on_container_copy_construction`;
  - placement construction and `[[no_unique_address]]`;
  - custom deleters.
- The converting `SharedPtr<U>`/`WeakPtr<U>` templates are collapsed to one payload type.
- Iterator accessors that only expose a pointer are left out: `begin`/`end`/`rbegin`/`rend` and their `const` variants, `*`, `->`, `get` and the `const_iterator` conversions. Iterators are modelled as positions or node references.
- `size_t`/`int` overflow of iterator and index arithmetic is left out: indices, sizes and counters are unbounded naturals. The modelled wrap-arounds are in `Residue` and `StackAllocator`.
- The sentinel `T(0)` of the list and deque element types is left out: element types are required to have a default value instead.
- Deque's `pointers_` array of block pointers is a sequence field the methods reassign. Its blocks are real arrays, written in place.
- The entry list inside Unordered_map.h (`NodeList`) is modelled on the sequence of its entries, and bucket heads on positions in it.
  - The node linking it shares with List.h is proved in `ListModel`.
  - Node identity (an iterator staying on its node while others move) becomes position arithmetic (`Shifted`/`Unshifted`).
- The inner list's `List(cnt)` and `List(cnt, value)` constructors and its copy constructor and assignments (Unordered_map.h:144-248) are left out. They repeat List.h's, which are modelled.
- The UnorderedMap copy constructor, copy and move assignment, range `insert` and range `erase` (Unordered_map.h:421-466, 543-547, 564-571) are left out. They are loops over `emplace`/`erase`, which are modelled.
- `clear` of the map (Unordered_map.h:413-418) is left out; the inner list's `clear` is modelled.
- The defaulted move constructor of UnorderedMap (Unordered_map.h:431) is left out; it keeps bucket iterators into the moved-from list.
- `List::swap` (Unordered_map.h:349-374) and `UnorderedMap::swap` (Unordered_map.h:651-665) are left out. The first names a member that does not exist and does not relink the nodes; the second swaps twice.
- The `double` load-factor arithmetic is fixed at its default: `max_load_factor` is 1, and `load_factor() >= 1` is modelled as `size() >= bucket count` (`LoadFactorReached`). The setter `max_load_factor(double)` (Unordered_map.h:629-634) is left out.
- UnorderedMapModel.UnorderedMap.Reserve: requires count > 0, because `reserve(0)` leaves no bucket and the next `get_hash` takes 0 for every key while `storage_[0]` does not exist.
- StringModel.String.Blank: puts the terminator at index length, where the source writes one char past the buffer (String_simple.h:29).
- StringModel.String.Filled: requires length >= 0. The source's `String(int length, char x)` (String_simple.h:36) passes length on to `String(size_t)`, where a negative int becomes a huge `size_t`: `new char[length + 1]` then throws and `memset(string, x, length)` writes out of bounds.
- StringModel.LessAsWritten: compares chars by their code points, that is as unsigned bytes. Where char is signed, as EofChar assumes for `operator>>`, the bytes 0x80-0xFF order below ASCII: "\xE9" < "a" holds there and not in the model. The two orders agree on ASCII text.
- StringModel.Less: compares chars by code point, as LessAsWritten does; the same holds for Greater, LessEq, GreaterEq and their as-written versions.
- StringModel.String.Append: requires other to be a different buffer. The source's s += s runs an overlapping `memcpy` (String_simple.h:122), which is undefined behaviour.
- DequeModel.Deque.Insert: takes the value by copy. The source's `const T& value` may be an element of the deque that the shift loop overwrites (Deque.h:350-356): insert(begin(), d[1]) on d = [x, y] gives [x, x, y] there, where the model gives [y, x, y].
- The `Equal` template parameter of UnorderedMap (Unordered_map.h:388) is left out: keys are compared with Dafny's `==`.
- BigIntegerModel.BigInteger.FromInt: requires x > LLONG_MIN. The source negates x, which overflows for LLONG_MIN.
- BigIntegerModel.BigInteger.MulAssignInt: requires digit > INT_MIN, for the same reason.
- BigIntegerModel.BigInteger.ToLongLong: requires the value to fit in a `long long`; the source's conversion overflows otherwise.
- BigIntegerModel.Literal: requires num <= LLONG_MAX. The literal operator passes its `unsigned long long` to `BigInteger(long long)`, which turns a larger num negative.
- BigIntegerModel.BigInteger.FindDiv: requires both operands non-negative. The source calls it only on absolute values.
- BigIntegerModel.Quotient: requires a non-zero divisor. `DivAssign` and `ModAssign` model the source's loop on a zero divisor.
- BigIntegerModel.Remainder: requires a non-zero divisor, as for Quotient.
- BigIntegerModel.BigInteger.FromString: requires the text after an optional '-' to be digits. The source's reading of `str[0]` on an empty string, and of non-digit chars, is not modelled.
- RationalModel.Quotient: requires a non-zero divisor. The source leaves a zero denominator, or for 0 / 0 divides by zero inside `norm()`. It also inherits the gap of Rational.DivAssign.
- RationalModel.Read: requires "n" or "n/d" with d non-zero digits. A token ending in '/', and a zero denominator, are not modelled.
- RationalModel.Rational.DivAssignPredivided: requires other != this. With aliasing the predividing `operator/=` of Matrix.h:534-547 multiplies the numerator by the denominator and then reads the new numerator. It ends in 1/d, the defect recorded for Big_integer.h under "## Findings".
- RationalModel.Rational.DivAssignPredivided: requires a non-zero other; the source's x /= 0 leaves a zero denominator. It also computes with exact integer parts, where the source uses the written BigInteger `*` and `+` (see "## Findings" for Big_integer.h:250-255 and 288-300), as DivAssign does.
- RationalModel.Rational.AddAssign: computes with exact integer parts, where the source uses the written BigInteger `*` and `+` (see "## Findings" for Big_integer.h:250-255 and 288-300). Rational(-1000000000) += Rational(0) gives 0 in the source. It requires other != this: `denominator *= other.denominator` (Big_integer.h:497) is then the aliasing BigInteger `*=`, which gives 0, so x += x with x = 1/2 ends in 1/0.
- RationalModel.Rational.SubAssign: computes with exact integer parts, where the source uses the written BigInteger `*` and `+` (see "## Findings" for Big_integer.h:250-255 and 288-300). Rational(-1000000000) -= Rational(0) gives 0 in the source. It requires other != this: with aliasing Big_integer.h:504 multiplies the denominator by itself, which gives 0, so x -= x ends in 0/0.
- RationalModel.Rational.MulAssign: computes with exact integer parts, where the source uses the written BigInteger `*` and `+` (see "## Findings" for Big_integer.h:250-255 and 288-300). Rational(-1000000000) *= Rational(1) gives 0 in the source. It requires other != this: with aliasing both `*=` at Big_integer.h:510-511 multiply a part by itself, which gives 0, so x *= x ends in 0/0.
- RationalModel.Rational.AddAssignPredivided: computes with exact integer parts, where the source uses the written BigInteger `*` and `+` (see "## Findings" for Big_integer.h:250-255 and 288-300). Matrix.h:254-256 carries the same `+=`. It requires other != this: with aliasing `denominator *= other.denominator` (Matrix.h:502) gives 0, so x += x with x = 1/2 ends in 1/0.
- RationalModel.Rational.SubAssignPredivided: computes with exact integer parts, where the source uses the written BigInteger `*` and `+` (see "## Findings" for Big_integer.h:250-255 and 288-300). Matrix.h:254-256 carries the same `+=`. It requires other != this: with aliasing Matrix.h:512 gives a zero denominator, so x -= x ends in 0/0.
- RationalModel.Rational.MulAssignPredivided: computes with exact integer parts, where the source uses the written BigInteger `*` and `+` (see "## Findings" for Big_integer.h:250-255 and 288-300). n = -1000000000, d = 1 times 1/1 gives 0 in the source. It requires other != this: with aliasing the two `*=` at Matrix.h:522-523 give 0, so x *= x ends in 0/0.
- RationalModel.Rational.ScaleParts: computes with exact integer parts, where the source uses the written BigInteger `*` and `+` (see "## Findings" for Big_integer.h:250-255 and 288-300). A numerator of -1000000000 scaled by 1 gives 0 in the source.
- RationalModel.Rational.PredividedProduct: computes with exact integer parts, where the source uses the written BigInteger `*` and `+` (see "## Findings" for Big_integer.h:250-255 and 288-300). n = -1000000000 with d = on = od = 1 gives 0 in the source.
- RationalModel.Rational.DivAssign: computes with exact integer parts, where the source uses the written BigInteger `*` and `+` (see "## Findings" for Big_integer.h:250-255 and 288-300); a numerator of -1000000000 divided by 1 gives 0 in the source. It requires a non-zero other: the source's x /= 0 runs norm() on a zero denominator and leaves ±1/0, or 0/0 for a zero numerator, outside the reduced form the model keeps.
- RationalModel.Rational.DivAssignAsWritten: computes with exact integer parts, where the source uses the written BigInteger `*` and `+` (see "## Findings" for Big_integer.h:250-255 and 288-300), as for DivAssign. It requires a non-zero other, as DivAssign does.
- RationalModel.Rational.FromFraction: requires a non-zero denominator. The source's Rational(n, 0) runs norm() and leaves ±1/0, or 0/0 for n = 0, outside the reduced form the model keeps.
- RationalModel.Rational.Equal: compares exact cross products, where the source's are made with the written BigInteger `*`: Rational(-1000000000) == Rational(0) is true in the source.
- RationalModel.Rational.Less: compares exact cross products, where the source's are made with the written BigInteger `*`: Rational(-1000000000) < Rational(0) is false in the source.
- RationalModel.Greater: built on the exact cross products, as Less is: Rational(0) > Rational(-1000000000) is false in the source.
- RationalModel.LessOrEqual: built on the exact cross products, as Less is: Rational(0) <= Rational(-1000000000) is true in the source.
- RationalModel.GreaterOrEqual: built on the exact cross products, as Less is: Rational(-1000000000) >= Rational(0) is true in the source.
- RationalModel.NotEqual: built on the exact cross products, as Equal is: Rational(-1000000000) != Rational(0) is false in the source.
- RationalModel.Sum: inherits the gap of Rational.AddAssign: Rational(-1000000000) + Rational(0) gives 0 in the source.
- RationalModel.Difference: inherits the gap of Rational.SubAssign: Rational(-1000000000) - Rational(0) gives 0 in the source.
- RationalModel.Product: inherits the gap of Rational.MulAssign: Rational(-1000000000) * Rational(1) gives 0 in the source.
- ResidueModel.Residue.constructor: requires 0 < N <= 2^30 and an `int` argument, so that the source's `int` and `size_t` arithmetic cannot overflow; larger N is not modelled. The default constructor, which leaves x uninitialised, is left out.
- MatrixModel.Matrix.Invert: for a singular matrix the source divides by a zero Rational. The model reports ok = false and then promises only a valid matrix; ok = false is not proved to mean singular.
- MatrixModel.Matrix.Inverted: as for Invert.
- SharedPtrModel.WeakPtr.FromShared: requires a non-empty SharedPtr. The source dereferences the control block without a check (Shared_ptr.h:299), so a WeakPtr made from an empty SharedPtr writes through a null pointer.
- UnorderedMapModel.NodeList.Moved: models the move constructor on the sequence of elements as intended. The links as written, which break for an empty other, are modelled by UnorderedMapModel.MoveLinksAsWritten (see "## Findings").
- UnorderedMapModel.NodeList.MoveFrom: models the move assignment on the sequence of elements as intended. Unordered_map.h:217-224 repeats the six link updates of the move constructor and so mislinks an empty other in the same way.
- The Field template parameter of Matrix is modelled by exact real numbers, an exact field. The shipped Rational is such a field only over the corrected BigInteger: its written `+` and `*` lose a mod in the cases listed for RationalModel above. The BigInteger and Rational copies at the top of Matrix.h are identical to Big_integer.h except for the predividing Rational operators and `operator double`, so they are modelled once.

## Findings

| source | as written | input that shows it | evidently intended | confidence | as-written member | corrected member |
|---|---|---|---|---|---|---|
| Big_integer.h:250-255 | `+=` of opposite signs where the result changes sign takes the limb complement but drops the carry out of the lowest limb | 5 + (-1000000005) gives 0 | the exact sum, -1000000000 | not executed | BigIntegerModel.AddAsWrittenDropsCarry | BigIntegerModel.BigInteger.AddAssign |
| Big_integer.h:258-261 | `-=` is `+=` of the negation, so it inherits the dropped carry | 5 - 1000000005 gives 0 | -1000000000 | not executed | BigIntegerModel.BigInteger.SubAssignAsWritten | BigIntegerModel.BigInteger.SubAssign |
| Big_integer.h:288-300 | `*=` accumulates the limb products with the written `+=`; a step that adds a negative multiple of mod to 0 loses it | (-1000000000) * 1 gives 0 | -1000000000 | not executed | BigIntegerModel.MulAsWrittenDropsCarry | BigIntegerModel.BigInteger.MulAssignAliasSafe |
| Big_integer.h:331-338 | `%=` forms other times the quotient with the written `*=` and subtracts it with the written `-=` | (-3000000000) % (-1000000000) gives -1000000000 | 0 | not executed | BigIntegerModel.ModAsWrittenDropsCarry | BigIntegerModel.BigInteger.ModAssign |
| Big_integer.h:371-375 | `operator+` applies the written `+=` to a copy | 5 + (-1000000005) gives 0 | -1000000000 | not executed | BigIntegerModel.SumAsWritten | BigIntegerModel.Sum |
| Big_integer.h:377-381 | `operator-` applies the written `-=` to a copy | 5 - 1000000005 gives 0 | -1000000000 | not executed | BigIntegerModel.DifferenceAsWritten | BigIntegerModel.Difference |
| Big_integer.h:383-387 | `operator*` applies the written `*=` to a copy | (-1000000000) * 1 gives 0 | -1000000000 | not executed | BigIntegerModel.ProductAsWritten | BigIntegerModel.Product |
| Big_integer.h:395-399 | `operator%` applies the written `%=` to a copy | (-3000000000) % (-1000000000) gives -1000000000 | 0 | not executed | BigIntegerModel.RemainderAsWritten | BigIntegerModel.Remainder |
| Big_integer.h:199-203 | postfix `++` calls the written prefix `++`, so it inherits the negative zero | x = -1, x++ leaves no limbs with isNegative true | 0, non-negative | not executed | BigIntegerModel.BigInteger.PostIncrementAsWritten | BigIntegerModel.BigInteger.PostIncrement |
| Big_integer.h:178-184 | `++` on a negative number sets the sign back to negative after `--` of the magnitude, even when that reached zero | ++ on -1 leaves no limbs with isNegative true, a negative zero | 0, non-negative | not executed | BigIntegerModel.BigInteger.IncrementAsWritten | BigIntegerModel.BigInteger.Increment |
| Big_integer.h:288-300 | `*=` sets this to zero before it reads other's limbs, so with other being this object the product is zero | x *= x with x = 3 gives 0 | 9 | not executed | BigIntegerModel.BigInteger.MulAssign | BigIntegerModel.BigInteger.MulAssignAliasSafe |
| Shared_ptr.h:340-342 | `lock()` goes through the private constructor at Shared_ptr.h:99-101, which raises shared_counter unconditionally, so an expired weak handle revives a block whose object is already destroyed; on an empty WeakPtr it raises the counter through a null control block | lock() on a WeakPtr whose last SharedPtr is gone; lock() on a default-constructed WeakPtr | an empty SharedPtr when expired or empty | not executed | SharedPtrModel.LockAsWrittenRevivesExpiredBlock | SharedPtrModel.Lock |
| Big_integer.h:516-521 | `/=` multiplies the numerator by other's denominator and then reads other's numerator, which is this numerator already changed when other is this object | x /= x with x = 2/3 gives 1/3 | 1 | not executed | RationalModel.SelfQuotient | RationalModel.Rational.DivAssign |
| Matrix.h:689-696 | `is_prime` runs no trial division for 0 and 1 and answers true | is_prime(1) is true | false for 0 and 1 | not executed | ResidueModel.IsPrimeAsWritten | ResidueModel.IsPrimeChecked |
| String_simple.h:200-210 | `operator<` returns true once it runs off the end of the first string, so equal strings compare less | "a" < "a" is true | false: a strict order | not executed | StringModel.LessAsWritten | StringModel.Less |
| String_simple.h:212-214 | `operator>` is the written `operator<` with the operands swapped | "a" > "a" is true | false | not executed | StringModel.GreaterAsWritten | StringModel.Greater |
| String_simple.h:216-218 | `operator<=` negates the written `operator>` | "a" <= "a" is false | true | not executed | StringModel.LessEqAsWritten | StringModel.LessEq |
| String_simple.h:220-222 | `operator>=` negates the written `operator<` | "a" >= "a" is false | true | not executed | StringModel.GreaterEqAsWritten | StringModel.GreaterEq |
| List.h:52-58 | `allocate` moves `top` by cnt * sizeof(T) from the old top, not from the aligned address, so the alignment padding is counted twice or handed out twice | from an empty buffer, char then int then char: the int is placed at 4..8 with top at 5, and the second char at 5 lies inside it | top moved past the padding and the block | not executed | StackAllocatorModel.AsWrittenOverlap | StackAllocatorModel.ServeDisjoint |
| Unordered_map.h:202-211 | the move constructor copies other's sentinel links first and then relinks through them; when other is empty, other.fakeNode_.prev is other's sentinel, so fakeNode_.prev ends at fakeNode_ while fakeNode_.next stays at other's sentinel. The move assignment at 213-227 does the same | moving from an empty list: begin() of the new list is the other list's sentinel, not end() | an empty list whose sentinel links to itself | not executed | UnorderedMapModel.MoveOfEmptyAsWritten | UnorderedMapModel.MoveLinks |
| List.h:260-285 | copy `operator=` has no self-assignment check; with other being this list, the loop bound other.listSize grows with every push_back | a = a on a list of one element does not end until an allocation fails | a no-op | not executed | ListModel.List.SelfAssignAsWritten | ListModel.List.Assign |
