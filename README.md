# djb2 bucket hash and integer maximum of the parcel-index project

The parcel-index project (SENG1050) groups parcel records by destination
country in a hash table of 127 buckets (`HashTable::table`). Its source file
`project.cpp` holds only two executable routines:

- `djb2`: Dan Bernstein's string hash. It starts from 5381 and walks a
  NUL-terminated `char` string. For each character `c` it sets
  `hash = (hash << 5) + hash + c`.
- `max`: the larger of two `int`s.

`project.dfy` (module `Project`) models both routines for an MSVC/Windows
build, which the `#pragma warning` line points to. On that build
`unsigned long` is 32 bits wide and a plain `char` is signed.

- Memory is a `seq<Byte>` of raw bytes. `CString` takes the bytes before the
  first NUL, which is all the loop ever reads.
- `CharValue` is the byte read as a signed `char` and promoted to `int`, so
  bytes 0x80..0xFF count as negative values.
- `ShiftAddStep` is the loop body's expression as the 32-bit machine
  evaluates it. The shift and both additions wrap modulo 2^32, and the
  negative `int` is converted to `unsigned long` before it is added. Its
  contract is the step law `h*33 + c mod 2^32`.
- `Hash` is the specification: a left fold of that step law over the
  string, starting at 5381. The lemmas `HashAppend` (one step per appended
  character) and `HashClosedForm` (the polynomial below) state what it is,
  and `Djb2Accumulate` is proved against it.
- `Djb2Accumulate` is the `while` loop, a method over an index into the
  string. It is proved to leave `Hash` of the C string in the accumulator.
- `HashClosedForm` proves `Hash` equal to an independent reference
  definition: the polynomial `5381*33^n + sum of c_i*33^(n-1-i)`, reduced
  modulo 2^32.

**The source `djb2` has no `return` statement.** Control falls off the end
of a function that returns `unsigned long`, which is undefined behaviour in
C++. The model does not claim to know what the C++ function returns. The
comment on the loop body says `return hash % 127`, so `Djb2` rebuilds the
return from that comment. `Bucket` is that value, always a valid index into
the 127-slot table.

The usual statement of djb2 reads each character as an unsigned byte
(`unsigned char`). This code reads it through a plain `char`, which is
signed on MSVC, and the model follows the code. `HighByteIsSigned` shows
the difference on the byte 0xE9: the hash is 177550, not 177806. For bytes
below 0x80 the two readings agree.

## Model

| member | source | states |
|---|---|---|
| `Project.CharValue` | project.cpp:45-46 | a byte read through signed `char` into `int` lies in [-128, 128), equals the byte modulo 256, and is zero exactly for the NUL byte |
| `Project.CString` | project.cpp:46 | the string the loop reads is a NUL-free prefix of memory, and it stops at a NUL byte whenever memory goes on |
| `Project.CStringAt` | project.cpp:46 | when the first NUL sits at index i, the string is exactly the i bytes before it |
| `Project.TerminatorCutsOff` | project.cpp:46 | bytes after the terminating NUL are ignored: the C string is exactly the part before the NUL, so the accumulator `Djb2Accumulate` returns depends on that part only |
| `Project.ShiftAddStep` | project.cpp:47 | `(hash << 5) + hash + c`, with 32-bit wrap-around and `int`-to-`unsigned long` conversion of c, equals `(hash*33 + c) mod 2^32` |
| `Project.StepIsTimes33` | project.cpp:47 | the shift-and-add form and the times-33 form of one step agree modulo 2^32 for every accumulator and every c |
| `Project.HashAppend` | project.cpp:46-47 | the hash is a left fold: appending a character maps the old hash h to `(h*33 + c) mod 2^32` |
| `Project.HashClosedForm` | project.cpp:44-47 | the hash of an n-character string equals `(5381*33^n + sum of c_i*33^(n-1-i)) mod 2^32` |
| `Project.Djb2Accumulate` | project.cpp:42-47 | for any NUL-terminated input, the loop leaves in `hash` the djb2 value of the bytes before the first NUL, a 32-bit word |
| `Project.Djb2` | project.cpp:42-48 | with the return rebuilt from the comment, the result is the bucket of the C string, an index below 127 |
| `Project.Bucket` | project.cpp:47 | the commented result `hash % 127` lies in [0, 127), the index range of `HashTable::table` (project.cpp:39) |
| `Project.EmptyString` | project.cpp:44-46 | when the first byte is NUL the loop body never runs: the accumulator stays 5381 and the bucket is 47 |
| `Project.HighByteIsSigned` | project.cpp:45-47 | byte 0xE9 enters the hash as -23, giving 177550, which differs from the unsigned reading |
| `Project.ItalyBucket` | project.cpp:44-47 | "Italy" hashes to 225002472, which is bucket 1 |
| `Project.Max` | project.cpp:50-53 | the result is at least a and at least b, and it is one of the two |
| `Project.MaxIsLeastUpperBound` | project.cpp:52 | any bound of both arguments bounds the maximum |
| `Project.MaxCommutes` | project.cpp:52 | swapping the arguments does not change the value |

## Left out

- Djb2Accumulate: models the accumulator the loop computes, not the function's return value. The source has no `return`, which is undefined behaviour; `Djb2` rebuilds the return from the comment on line 47.
- Pointer arithmetic on `str` is modelled as an index into an immutable byte sequence. Reading past the end of memory without meeting a NUL is undefined in C, so both methods require a NUL in the input.
- The signedness of `char` and the width of `unsigned long` are fixed to the MSVC choice (signed, 32 bits). A build with unsigned `char` or a 64-bit `unsigned long` would give other values for some inputs.
- Max: the `a == b` case returns `b`, which has the same value as `a`, so the contract does not tell the two branches apart.
- The `Parcel`, `AVLTree` and `HashTable` structs (project.cpp:21-40) declare data but have no operations. Only the table size of 127 is used, as the bucket range. The `float valuation` field is floating point and nothing uses it.
- The `#include` lines and the `#pragma` (project.cpp:11-17) are compiler plumbing with no logic.
- The BST insertion, traversals, aggregate and extreme queries, the file loader, the menu and the country allow-list are not part of this model. They are not in the modelled source file.
