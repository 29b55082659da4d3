# basetypes: fixed vectors, matrices, split/join, a line reader, a pool and byte utilities

This project models a group of helpers from `Common/Include/basetypes.h` in
Microsoft's CNTK (Computational Network Toolkit):

- `fixed_vector<T>`: a vector that cannot grow. It owns an array `p` of `n`
  elements, and `p` is null exactly when the vector is empty.
- `matrix<T>`: a `fixed_vector<T>` read as rows of `numcols` elements each.
- `strfun::split` and `strfun::join`: tokenize a string the way `strtok` does,
  and glue strings together with a delimiter between them.
- `files::textreader::getline`: reads one line with one character of
  lookahead. It accepts LF, CRLF and CR as line ends.
- `conc_stack<T>`: a pool of reusable objects. The model is sequential only.
- `util::bytereverse` and `util::byteswap`: reverse the bytes of a value, or
  of every value in an array.
- `util::attempt`: runs a body again after a `std::exception`, up to a
  number of retries.

Each Dafny module matches one part of the header:

- `BaseTypes` is `fixed_vector`, a class over an `array?`.
- `Matrices` is `matrix`, a class holding a `FixedVector`.
- `StrFun` holds split and join. Each is a method with the source's loop,
  proved equal to a recursive specification function. The lemmas are about
  those functions.
- `Files` holds `textreader`. It is a class whose file is an in-memory
  character sequence, plus the specification function `NextLine`.
- `ConcStacks` is `conc_stack`. It is a class over a `seq`, plus a
  history-based meaning of sequences of calls.
- `Util` holds `bytereverse`, `byteswap` and `attempt`.

The shared `Option` and `Result` types live in `Wrappers`.

The model leaves I/O, the clock and the factory out of the classes:
- The file that `textreader` reads is a constructor argument.
- `Sleep` and the messages printed to `stderr` are not modelled.
- The body given to `attempt` is a function from the call number to how that
  call ended.
- The factory given to `pop_or_create` is a pure function.

## Model

| member | source | states |
|---|---|---|
| BaseTypes.FixedVector.constructor | Common/Include/basetypes.h:401 | the default vector is empty with a null array |
| BaseTypes.FixedVector.Sized | Common/Include/basetypes.h:404 | a positive size gives a fresh array of that many elements; a non-positive size gives the empty vector (the corrected constructor, see Findings) |
| BaseTypes.FixedVector.Size | Common/Include/basetypes.h:407 | size() is the length of the owned array, and 0 when there is none |
| BaseTypes.FixedVector.Empty | Common/Include/basetypes.h:409 | empty() holds exactly when the element sequence is empty |
| BaseTypes.FixedVector.Clear | Common/Include/basetypes.h:410 | the vector becomes empty and stays well formed |
| BaseTypes.FixedVector.Resize | Common/Include/basetypes.h:402 | the old array is dropped; the new size is the argument when positive, else 0, with a fresh array when positive |
| BaseTypes.FixedVector.At | Common/Include/basetypes.h:415-417 | operator[] for reading: defined only for 0 <= index < n (the assertion in check at 384-397), and it yields element `index` of the contents |
| BaseTypes.FixedVector.Put | Common/Include/basetypes.h:414-416 | operator[] for writing: defined only inside the bounds; element `index` becomes x and no other element changes |
| BaseTypes.FixedVector.Swap | Common/Include/basetypes.h:419 | the two vectors exchange their arrays and sizes |
| BaseTypes.FixedVector.Assign | Common/Include/basetypes.h:428-435 | after assignment from another vector, the contents equal the other's old contents, including self-assignment; the other vector is unchanged; the array is fresh |
| BaseTypes.FixedVector.AssignFrom | Common/Include/basetypes.h:420-427 | after assignment from any sequence, the contents equal that sequence |
| BaseTypes.IntCtorAsWritten | Common/Include/basetypes.h:404 | the size constructor as written: n is size converted to a 64-bit size_t (size itself when non-negative, size + 2^64 when negative), and an array exists only for a positive size |
| BaseTypes.IntCtorNegativeSize | Common/Include/basetypes.h:404 | fixed_vector(-1) as written has n = 2^64 - 1 with a null array, which breaks the class's own consistency |
| Matrices.LocateInRange | Common/Include/basetypes.h:449 | for i < rows and j < cols, the offset i * cols + j lies inside the rows * cols elements |
| Matrices.LocateInjective | Common/Include/basetypes.h:449 | two cells with column below cols and the same offset are the same cell, so writing one cell leaves every other cell alone |
| Matrices.LocateOnto | Common/Include/basetypes.h:449 | every offset below rows * cols is the offset of exactly the cell (k / cols, k % cols) |
| Matrices.LocateDivMod | Common/Include/basetypes.h:449 | the row and column are recovered from an offset by / and % |
| Matrices.DivOfProduct | Common/Include/basetypes.h:454-456 | a size of n * m elements with m columns has n rows and no partial row |
| Matrices.Matrix.constructor | Common/Include/basetypes.h:452 | the default matrix has no elements, no columns and no rows |
| Matrices.Matrix.Sized | Common/Include/basetypes.h:453-454 | matrix(n, m) has n * m elements and m columns, and n rows unless it is empty; its storage is newly allocated (none when empty), so the matrix owns it |
| Matrices.Matrix.Cols | Common/Include/basetypes.h:455 | the elements divide into whole rows of cols() each, and no columns means no elements |
| Matrices.Matrix.Size | Common/Include/basetypes.h:457 | size() is the length of the storage array, and 0 when there is none |
| Matrices.Matrix.Rows | Common/Include/basetypes.h:456 | rows() is 0 for an empty matrix, and rows() * cols() is the size |
| Matrices.Matrix.Locate | Common/Include/basetypes.h:449 | locate(i, j) requires i < rows() and j < cols(); the offset is inside the elements, and / and % by cols() give back i and j |
| Matrices.Matrix.At | Common/Include/basetypes.h:459-460 | m(i, j) for reading is the element at locate(i, j) |
| Matrices.Matrix.Put | Common/Include/basetypes.h:459 | m(i, j) for writing changes the element at locate(i, j) and nothing else |
| Matrices.Matrix.Resize | Common/Include/basetypes.h:454 | resize(n, m) gives n * m elements, m columns, and n rows unless empty; the storage is newly allocated (none when empty) |
| Matrices.Matrix.Swap | Common/Include/basetypes.h:461-463 | swap exchanges the column counts and the element arrays and sizes of the two matrices, and both stay well formed |
| StrFun.FindFirstNotOf | Common/Include/basetypes.h:658 | find_first_not_of: npos exactly when every character from pos on is a delimiter, else the first non-delimiter from pos on |
| StrFun.FindFirstOf | Common/Include/basetypes.h:660 | find_first_of: npos exactly when no character from pos on is a delimiter, else the first delimiter from pos on |
| StrFun.RunLength | Common/Include/basetypes.h:660-661 | the length of the leading run of non-delimiters: it has no delimiter, and it ends at the end or at a delimiter |
| StrFun.Tokens | Common/Include/basetypes.h:655-666 | the reference meaning of split: the maximal runs of non-delimiters, left to right; since tokens are separated by delimiters, k tokens need at least 2k - 1 characters (2k when the string starts with a delimiter) |
| StrFun.Separators | Common/Include/basetypes.h:655-666 | there is one more run of delimiters than there are tokens |
| StrFun.Split | Common/Include/basetypes.h:655-666 | the loop of split returns exactly Tokens(s, delim) |
| StrFun.SplitStart | Common/Include/basetypes.h:658 | the first find_first_not_of sets up the loop invariant with no tokens collected |
| StrFun.SplitStep | Common/Include/basetypes.h:659-664 | one iteration takes a non-empty token, restarts past it (the start index may exceed the length) and keeps the invariant |
| StrFun.PendingStep | Common/Include/basetypes.h:662-663 | appending the next token and moving to the next start keeps the invariant |
| StrFun.TokensAfterToken | Common/Include/basetypes.h:663 | the restart at en + 1 skips exactly the delimiter at en, or ends the loop at the end of the string |
| StrFun.TokensSkip | Common/Include/basetypes.h:658 | skipping leading delimiters does not change the tokens |
| StrFun.TokensFrom | Common/Include/basetypes.h:660-662 | a maximal non-delimiter run at the start is the next token |
| StrFun.TokensWellFormed | Common/Include/basetypes.h:654-666 | like strtok, every token is non-empty and contains no delimiter |
| StrFun.TokensEmptyIff | Common/Include/basetypes.h:654-666 | split gives no tokens exactly when the string is all delimiters (or empty) |
| StrFun.NonDelimsAppend | Common/Include/basetypes.h:654-666 | removing the delimiters distributes over concatenation |
| StrFun.NonDelimsOfRun | Common/Include/basetypes.h:654-666 | a run without delimiters loses nothing when the delimiters are removed |
| StrFun.TokensConcat | Common/Include/basetypes.h:654-666 | the concatenated tokens are the string with its delimiters removed, so no character is lost and none is reordered |
| StrFun.InterleavePrefix | Common/Include/basetypes.h:654-666 | proof helper for MaximalRunsDelim: adding characters to the first run of delimiters puts them in front of the rebuilt string |
| StrFun.InterleaveCons | Common/Include/basetypes.h:654-666 | proof helper for DecompositionCons: a token placed ahead of an empty run of delimiters goes in front of the rebuilt string |
| StrFun.GoodGapsPrefix | Common/Include/basetypes.h:654-666 | proof helper for MaximalRunsDelim: adding delimiters to the first run keeps the runs of delimiters well formed |
| StrFun.GoodGapsCons | Common/Include/basetypes.h:654-666 | proof helper for DecompositionCons: an empty leading run ahead of a non-empty one keeps the runs well formed |
| StrFun.TokensAreMaximalRuns | Common/Include/basetypes.h:654-666 | the string is its runs of delimiters interleaved with its tokens; these are maximal runs, with every inner run of delimiters non-empty |
| StrFun.MaximalRunsDelim | Common/Include/basetypes.h:654-666 | the decomposition extends when the string starts with a delimiter |
| StrFun.MaximalRunsToken | Common/Include/basetypes.h:654-666 | the decomposition extends when the string starts with a token |
| StrFun.SeparatorsHead | Common/Include/basetypes.h:654-666 | proof helper for MaximalRunsToken: a string that starts with a delimiter has a non-empty first run of delimiters |
| StrFun.DecompositionCons | Common/Include/basetypes.h:654-666 | proof helper for MaximalRunsToken: a token in front of a decomposition gives a decomposition of the longer string |
| StrFun.TokensAppendDelim | Common/Include/basetypes.h:654-666 | splitting x + c + y at a delimiter c is splitting x, then splitting y |
| StrFun.SingleToken | Common/Include/basetypes.h:654-666 | a non-empty string without delimiters is a single token |
| StrFun.Joined | Common/Include/basetypes.h:668-677 | the reference meaning of join: a[0], then delim and a[i] for each later string; the result starts with the first string |
| StrFun.Join | Common/Include/basetypes.h:668-677 | the loop of join returns Joined(a, delim): the strings in order, with the delimiter between neighbours only |
| StrFun.JoinedLength | Common/Include/basetypes.h:668-677 | the joined string's length is the total length plus one delimiter per gap, and 0 for no strings |
| StrFun.SplitJoinRoundTrip | Common/Include/basetypes.h:654-677 | splitting the join of non-empty, delimiter-free strings at a one-character delimiter gives the strings back |
| StrFun.WellFormedPrefix | Common/Include/basetypes.h:668-677 | proof helper for SplitJoinRoundTrip: dropping the last string keeps the strings non-empty and delimiter-free |
| Files.LineLength | Common/Include/basetypes.h:875 | the loop stops at the first LF or CR, or at EOF |
| Files.NextLine | Common/Include/basetypes.h:870-880 | the line, the terminator and the rest rebuild the input; the line holds no LF or CR; the terminator is none (only at EOF), LF, CR or CRLF, and a lone CR is not followed by LF; the input shrinks |
| Files.NextLineOfLine | Common/Include/basetypes.h:874-876 | a terminator-free line followed by LF, CRLF or a lone CR is read back as that line and that terminator, so line ends are recognised without ambiguity |
| Files.LineLengthOf | Common/Include/basetypes.h:875 | a terminator-free prefix ended by EOF or a terminator is exactly the line |
| Files.TextReader.constructor | Common/Include/basetypes.h:868 | the reader starts with the whole file ahead of it and an empty buffer |
| Files.TextReader.ReadChar | Common/Include/basetypes.h:866 | fgetc yields the next character and consumes it, or EOF at the end |
| Files.TextReader.GetCh | Common/Include/basetypes.h:866 | getch returns the lookahead character and advances by one |
| Files.TextReader.HasLine | Common/Include/basetypes.h:869 | operator bool holds exactly when input remains |
| Files.TextReader.GetLine | Common/Include/basetypes.h:870-880 | at EOF it is a logic error (ReadBeyondEof) and changes nothing; otherwise it returns NextLine's line and consumes the line and its terminator |
| Files.TextReader.FillLine | Common/Include/basetypes.h:875 | the loop moves the line's characters, up to the first LF or CR or EOF, into the buffer |
| Files.TextReader.ConsumeEndOfLine | Common/Include/basetypes.h:876 | it consumes one LF, one CR, or a CR together with the LF after it, and nothing at EOF |
| ConcStacks.ConcStack.constructor | Common/Include/basetypes.h:1009 | a new pool is empty |
| ConcStacks.ConcStack.PopOrCreate | Common/Include/basetypes.h:1011-1019 | on an empty pool it returns factory() and the pool stays empty; otherwise it removes and returns the top item |
| ConcStacks.ConcStack.Push | Common/Include/basetypes.h:1021-1031 | the item goes on top and nothing else changes |
| ConcStacks.Apply | Common/Include/basetypes.h:1011-1031 | the sequential meaning of one call: only a pop returns something, and the factory runs only on an empty pool, whose pop then returns the factory's value |
| ConcStacks.Run | Common/Include/basetypes.h:1011-1031 | the outcome of a history of calls; the factory ran no more often than values were handed out |
| ConcStacks.RunCreatedHandedOut | Common/Include/basetypes.h:1014-1015 | every value the factory made along a history is among the values handed out, counted with multiplicity |
| ConcStacks.PushThenPop | Common/Include/basetypes.h:1011-1025 | a push followed by pop_or_create hands back the pushed item, restores the pool and never calls the factory |
| ConcStacks.PopEmpty | Common/Include/basetypes.h:1014-1015 | pop_or_create on an empty pool returns the factory's value and leaves the pool empty |
| ConcStacks.Conservation | Common/Include/basetypes.h:1011-1031 | along any history of calls, the items in the pool plus those pushed plus those the factory made equal, as a multiset, the items now in the pool plus those handed out |
| ConcStacks.ConservationStep | Common/Include/basetypes.h:1011-1031 | each single call keeps that balance |
| ConcStacks.Rebalance | Common/Include/basetypes.h:1011-1031 | proof helper for Conservation (multiset algebra only): two balanced stretches of a history compose into a balanced whole |
| ConcStacks.EachPopReturnsOne | Common/Include/basetypes.h:1011-1019 | every pop_or_create returns exactly one item, and the factory runs at most once per pop |
| ConcStacks.PopsServedFromPool | Common/Include/basetypes.h:1014-1018 | k pops from a pool of at least k items never call the factory; they return the top k items, last-in first-out, and leave the bottom of the pool |
| ConcStacks.PopsLeaveBottom | Common/Include/basetypes.h:1014-1018 | the first half of PopsServedFromPool: no factory call, and the bottom of the pool stays |
| ConcStacks.PopsReturnTop | Common/Include/basetypes.h:1016-1018 | the second half of PopsServedFromPool: the top k items come out, last pushed first |
| ConcStacks.PopFromPool | Common/Include/basetypes.h:1016-1018 | proof helper for PopsLeaveBottom and PopsReturnTop: one pop from a non-empty pool returns its top and continues on the rest |
| ConcStacks.PopSlices | Common/Include/basetypes.h:1016-1018 | proof helper for PopsReturnTop: the top item followed by the reversed top k - 1 items of the rest is the reversed top k items |
| Util.Reversed | Common/Include/basetypes.h:919-925 | reversal keeps the length |
| Util.ReversedAt | Common/Include/basetypes.h:923-924 | element k of the reversal is element n - 1 - k of the original |
| Util.ReversedTwice | Common/Include/basetypes.h:919-925 | reversing twice gives back the original, so bytereverse is its own inverse |
| Util.ReversedSnoc | Common/Include/basetypes.h:1016-1018 | proof helper for ConcStacks.PopSlices (the last-in first-out order of pops): reversing s + [x] puts x first |
| Util.ByteReverse | Common/Include/basetypes.h:919-925 | swapping bytes k and n - 1 - k for k < n / 2 leaves the bytes of the value in reverse order |
| Util.ByteSwap | Common/Include/basetypes.h:928-932 | every element of the array has its bytes reversed |
| Util.Attempt | Common/Include/basetypes.h:938-956 | the body runs at least once and at most max(retries, 1) times; every call before the last threw a std::exception; the last call returned, threw something else (which escapes), or was the final allowed call (its std::exception is rethrown) |

## Left out

- The mutex of `conc_stack` is not modelled, and neither is any interleaving
  of threads. The model is the sequential meaning of the pool: each call is
  atomic under the lock.
- ConcStacks.ConcStack.PopOrCreate: the factory is a pure function and cannot fail
  in the model. In the source, an exception thrown by `factory()` escapes to
  the caller. That happens only on an empty pool, which the throw leaves
  empty, and the model's `PopOrCreate` leaves that same pool. In the history
  model each pop supplies the value its factory call would make.
- The moves and copies of `push(const T&)` and `push(T&&)` are both
  modelled as `Push`. They differ only in how C++ transfers the item.
- File I/O in `textreader`: the file is an in-memory character sequence, and
  opening a missing file is not modelled. `wgetline` converts UTF-8 to UTF-16,
  which is not modelled. The reserve of 10000 characters of buffer only
  affects performance.
- Files.TextReader.GetLine: `LogicError` throws an exception; here it is
  the `Failure(ReadBeyondEof)` result.
- `util::attempt`: `Sleep(1000)` and the messages written to `stderr` are
  left out. The body is a function from the call number to how that call
  ended, so a body's side effects are not modelled.
- `check()` in `fixed_vector` is a debug `assert`. It becomes a precondition
  of `At` and `Put`.
- The size_t constructor `fixed_vector(size_t)` narrows the size to `int`
  when storing `n`. This cast is not modelled; `Sized` takes an unbounded
  integer.
- BaseTypes.FixedVector.Size: `size()` and `capacity()` cast `n` to `int`. The model returns `n` itself
  and has no separate `capacity`, since it always equals `size()`.
- `begin()`, `end()` and `indexof()` are pointer arithmetic and are not
  modelled.
- The converting constructor from any vector (line 436) starts from the empty
  vector and then assigns `other` to it. It is not modelled as a member of its
  own: it is `constructor()` followed by `AssignFrom`.
- The elements of a fresh array come from `T`'s default constructor. The
  model leaves their values unspecified.
- Matrices.Matrix.Resize: the product `n * m` is unbounded in the model.
  In the source it is a `size_t` product that can wrap around.
- Matrices.Matrix.Sized: computes the same `n * m` through `resize`, so the
  same wrap-around is not modelled.
- Matrices.Matrix.Swap: requires the two matrices not to share one element
  vector object. In C++ every matrix holds its own elements, so this always
  holds there.
- `strprintf`, the string and number conversions, `tokenizer`,
  `tolower_ascii`, `utf8`/`utf16`, `auto_timer` and the other helpers of the
  header are outside this model.
- `split` and `join` for wide strings behave the same as the narrow ones. The
  model is over `seq<char>`, and the delimiter set is a sequence of
  characters, like the `const _T *` argument.
- StrFun.Split, StrFun.Join: `delim` is NUL-terminated in the source, so it
  never holds `'\0'`. The model does not require `'\0' !in delim`, so it also
  covers delimiters no C string can spell. With delimiters that are C strings,
  it behaves the same.

## Findings

| source | as written | input that shows it | evidently intended | confidence | as-written member | corrected member |
|---|---|---|---|---|---|---|
| Common/Include/basetypes.h:404 | the int size constructor stores its argument in the size_t `n` whatever its sign, and allocates only for a positive size | `fixed_vector(-1)`: `n` becomes 2^64 - 1 while `p` is NULL. `empty()` then reports false and `check()` accepts every index below 2^64 - 1 over a null array. `size()` casts back to int and returns -1 | a non-positive size gives the empty vector `n == 0, p == NULL`, as `resize(int)` at line 402 does | not executed | BaseTypes.IntCtorNegativeSize | BaseTypes.FixedVector.Sized |
