# cor: named tuples, tuple transfer, error messages and backtraces

A Dafny model of two headers of the `cor` C++ utility library.

- `include/cor/tuple.hpp`:
  - `TupleTraits` turns a `std::tuple` into a record whose slots are addressed by the members of an enumeration ending in `Last_`. It provides `size`, `Index`, `Enum`, `get`, `set` and the field `name`.
  - `printable` writes a record as `(A=12, B=E)` through `RecordPrintablePair`.
  - `OutOp` / `get_similar` / `get<AccessorT, TupleT>` build a possibly nested tuple by reading its scalar leaves one at a time through an accessor.
  - `InOp` / `set<AccessorT>` write every leaf of a tuple through the accessor.
- `include/cor/error.hpp`:
  - `mk_error_message` formats an error message with `snprintf`. It retries with a doubled buffer until the text fits or the buffer reaches 64 KiB.
  - `Backtrace` captures return addresses and loads their symbol names lazily (`update_symbols`). It offers `at`, `dladdr`, `name` and `size`, and a stream operator that prints one numbered line per frame.

Files:

- `text.dfy` (`Text`): how an output stream writes an integer in decimal, with a parser that inverts it (so the frame number at the head of a trace line identifies the frame).
- `optional.dfy` (`Optional`): the `Option` datatype.
- `named_record.dfy` (`NamedRecord`): the `TupleTraits` operations and the record printer.
  - The element types of a tuple become one `Value` datatype (`Int` or `Str`).
  - The compile-time checks on ids and arity become preconditions (`IsId`, `IsRecord`).
  - `set` works in place on an `array<Value>`.
- `tuple_transfer.dfy` (`TupleTransfer`): reading and writing nested tuples.
  - Reading is pure template recursion, so it is modelled by functions over a state-threading accessor `(S, Kind) -> (Value, S)`. It is proved equal to the reference reading `ReadAll` of the flattened leaf types.
  - Writing is a sequence of side effects on the storage, so it is modelled by methods that append to the write log of a `Sink` object.
  - A round trip through a first-in first-out storage connects the two.
- `error_message.dfy` (`ErrorMessage`): the retry loop of `mk_error_message`.
  - It is a `while` loop proved against the chain of buffer sizes (`Doubling`, `LastAttempt`).
  - `snprintf` is described by the complete text it would produce (`Complete`) or by an output error (`OutputError`).
  - When the text fits in some attempt, the result is exactly that text.
  - Otherwise the result is the last buffer, doubled once more with NULs, and at least 64 KiB long.
- `backtrace.dfy` (`Backtraces`): the `Backtrace` class. Its fields `count` and `symbols` are updated in place.
  - The C library calls are parameters: `backtrace`'s result is given to the constructor, `backtrace_symbols` is `lookup`, and `dladdr` with `__cxa_demangle` is `symbolize`.

## Model

| member | source | states |
|---|---|---|
| NamedRecord.Size | include/cor/tuple.hpp:19-22 | the size is one more than the index of `Last_`; for a valid record type it equals the arity of the tuple and the number of field names |
| NamedRecord.Index | include/cor/tuple.hpp:24-31 | every id up to `Last_` addresses a slot below the size |
| NamedRecord.Enum | include/cor/tuple.hpp:33-37 | `Enum<i>` exists only for `i <= Last_`; it is an id, and its index is `i` |
| NamedRecord.IndexEnumBijection | include/cor/tuple.hpp:24-37 | `Index` and `Enum` are inverse bijections between the ids and the slot positions |
| NamedRecord.Get | include/cor/tuple.hpp:45-69 | the member `get<Id>` and the free `get<TupleTraitsT, Id>` return a value of the slot's element type |
| NamedRecord.GetIsPositional | include/cor/tuple.hpp:45-53 | getting by id `Enum<i>` is `std::get<i>` |
| NamedRecord.Set | include/cor/tuple.hpp:39-43 | after `set<Id>(t, v)` the tuple is still a record, `get<Id>` gives `v`, and every other field is unchanged |
| NamedRecord.PrintPairs | include/cor/tuple.hpp:113-136 | `RecordPrintablePair<N>::out` writes the `name=value` entries from index `last - N` to `last`, separated by ", " (the join of those entries) |
| NamedRecord.Print | include/cor/tuple.hpp:138-145 | the record is printed as "(", every `name=value` entry in slot order separated by ", ", then ")" |
| NamedRecord.TwoFieldEntries | tests/tuple.cpp:88 | the entries of the record with fields `A` = 12 and `B` = "E" are `A=12` and `B=E` |
| NamedRecord.PrintTwoFields | tests/tuple.cpp:82-90 | the record with fields `A` = 12 and `B` = "E" prints as `(A=12, B=E)` |
| TupleTransfer.HeadThenTail | include/cor/tuple.hpp:157-167 | reading the first element type, then the others from the state that leaves, and concatenating the results reads the whole argument list |
| TupleTransfer.LeafReads | include/cor/tuple.hpp:169-179 | a single scalar element type is read by one call of the accessor, which gives the element and the next state |
| TupleTransfer.NestedReads | include/cor/tuple.hpp:191-203 | a single tuple element type is read as one element holding the tuple `get_similar` built |
| TupleTransfer.OutOp | include/cor/tuple.hpp:153-203 | `OutOp<Args...>::get` returns elements of the argument types whose leaves are the values the accessor gives for the leaf types in order, depth first, and ends in the state after those reads |
| TupleTransfer.GetSimilar | include/cor/tuple.hpp:181-188 | `get_similar` returns a tuple of the template's shape whose leaves are read in order, depth first, from the storage |
| TupleTransfer.SetTo | include/cor/tuple.hpp:215-226 | `set_to` hands a scalar to the accessor, and every leaf of a nested tuple in order |
| TupleTransfer.SetTuple | include/cor/tuple.hpp:228-231 | `InOp::set` writes exactly the leaves of the source tuple, left to right, depth first |
| TupleTransfer.SetFrom | include/cor/tuple.hpp:235-248 | `set_` from the selector at element `i` writes the leaves of elements `i` to the last, in order |
| TupleTransfer.RoundTripSeq | include/cor/tuple.hpp:153-203 | `OutOp` over a first-in first-out storage holding a tuple's leaves, with the tuple's own types, reads the tuple back and consumes exactly its leaves |
| TupleTransfer.SetThenGetSimilar | include/cor/tuple.hpp:251-266 | `get_similar` (as `get<AccessorT, TupleT>` uses it), on the tuple as template, from a first-in first-out storage whose next values are the leaves `set<AccessorT>` wrote gives the tuple back, consumes exactly those leaves and leaves whatever followed them |
| TupleTransfer.Transfer | include/cor/tuple.hpp:251-266 | copying a tuple through a fresh storage with `set`, then `get`, yields the same tuple |
| ErrorMessage.LastAttempt | include/cor/error.hpp:183-189 | starting from a size below 64 KiB and doubling while below 64 KiB, the last size tried is below 64 KiB and its double is not |
| ErrorMessage.DoublingDoubles | include/cor/error.hpp:189 | each buffer size tried is twice the previous one |
| ErrorMessage.StoredWhole | include/cor/error.hpp:184-186 | when `snprintf` returns less than the buffer size, the first `rc` characters are the complete text, so `resize(rc)` keeps exactly it |
| ErrorMessage.FailedAgain | include/cor/error.hpp:184-189 | a failed attempt into a doubled buffer overwrites what the failed attempt before it left |
| ErrorMessage.AttemptStep | include/cor/error.hpp:183-190 | one iteration keeps the doubling chain of sizes; on failure the doubled buffer is the next pending one; on success the buffer starts with the text |
| ErrorMessage.SucceededFits | include/cor/error.hpp:185-187 | a successful attempt in the chain means the message fits |
| ErrorMessage.ExhaustedAbandons | include/cor/error.hpp:183-191 | when the last size of the chain fails, the message does not fit and the result is the last buffer doubled with NULs |
| ErrorMessage.Format | include/cor/error.hpp:181-191 | sizes start at twice the format string's length and double below 64 KiB; all but the last attempt fail; the result is the complete text exactly when it fits, otherwise a buffer of at least 64 KiB |
| ErrorMessage.MkErrorMessage | include/cor/error.hpp:169-192 | without arguments, or with an empty format string, the message is returned unchanged; otherwise the result of the retry loop |
| ErrorMessage.FitsBounds | include/cor/error.hpp:181-190 | a text under 32 KiB always fits when the format string does; a text of 64 KiB or more never does |
| Backtraces.Backtrace.constructor | include/cor/error.hpp:75-78 | `count_` is the depth `backtrace` filled in, and no symbols are loaded |
| Backtraces.Backtrace.UpdateSymbols | include/cor/error.hpp:138-152 | loaded symbols are kept; otherwise they become the names `backtrace_symbols` gave; if it failed, the single name "?" with a count of one |
| Backtraces.UpdateTwice | include/cor/error.hpp:138-152 | loading the symbols a second time changes nothing |
| Backtraces.Backtrace.Symbols | include/cor/error.hpp:97-107 | `begin()` to `end()` spans one loaded name per frame |
| Backtraces.Backtrace.At | include/cor/error.hpp:109-113 | the loaded name of the frame, "???" past the last frame |
| Backtraces.Backtrace.Dladdr | include/cor/error.hpp:115-118 | a frame is found exactly when it is below `count_` and the C library resolves its address |
| Backtraces.Backtrace.Size | include/cor/error.hpp:131-134 | `size()` is `count_`, which never exceeds the capacity of the buffer |
| Backtraces.Backtrace.Name | include/cor/error.hpp:120-129 | the demangled symbol when `dladdr` and demangling succeed, without loading symbols; otherwise `at(index)` |
| Backtraces.LineIsNumbered | include/cor/error.hpp:165 | every printed line starts with its frame number and ": " and ends the line |
| Backtraces.NumberedAppend | include/cor/error.hpp:164-165 | appending the next numbered line keeps every line numbered by its position |
| Backtraces.TracedAppend | include/cor/error.hpp:164-165 | appending the line for the next frame keeps every line naming its own frame |
| Backtraces.NumberedUnique | include/cor/error.hpp:165 | the number at the head of a line determines the frame: its digits end at the ":" |
| Backtraces.NumberedLinesDistinct | include/cor/error.hpp:164-165 | no two lines of a printed trace are equal |
| Backtraces.Backtrace.Trace | include/cor/error.hpp:160-167 | the loop re-reads `size()` before every line; every line is numbered by its position and there are at most `count_` lines; afterwards the symbols and count are unchanged or updated as by `update_symbols`; when symbols are or can be loaded, there is exactly one line per frame, naming its frame |

## Left out

- The C++ type machinery (templates, `static_assert`, `std::tuple_element`, references versus const references) is reduced to the `Kind`/`Value` datatypes and to preconditions. Element types other than `int` and `std::string` are not modelled.
- `include/cor/util.hpp` is not part of this model: `enum_index`, `TupleSelector`, `RECORD_FIELD_NAMES`, and the `reference`/`const_reference`/`wrap`/`release` helpers the tests use. `InOp::set_` is modelled with an element position in place of the selector.
- `NamedRecord.Name` (`name<TupleTraitsT, Id>`) is the field name supplied by the info type. It has no contract of its own, and the printer uses it.
- Output streams are modelled as the strings they receive. `std::endl` is "\n", and flushing is not modelled.
- `OutOp`, `GetSimilar`: tuples with no elements are excluded, because `OutOp` has no case for an empty argument list.
- `SetTuple`, `SetFrom`: tuples with no elements are excluded; what `InOp` does with one depends on `cor::selector` in `include/cor/util.hpp`, which is not part of this model.
- `OutOp`, `GetSimilar`: the accessor must return a value of the type it is asked for (`WellTyped`). In C++ its return type guarantees this.
- `TupleTransfer.Sink`: a storage is modelled by the sequence of values handed to its accessor's `set`. What a real storage does with them is not modelled.
- `Snprintf`: the formatting of the arguments by the C library is not modelled; only the complete text it would produce is. On an output error the buffer is left unchanged, where C leaves its contents unspecified.
- `Format`: `snprintf` returns an `int`. A text longer than `INT_MAX` is not modelled.
- `Format`: the loop is specified against a ghost list of the buffer sizes tried.
- The `Error`/`CError` exception classes and the error-trace helpers that follow `mk_error_message` are not part of this model.
- `is_address_valid`, `mk_cmem_handle`, and the copy constructor and destructor of `Backtrace` are not modelled. They deal with raw memory ownership.
- `Backtrace.UpdateSymbols`: a failing `calloc` is not modelled.
- `Backtrace.constructor`: the frame buffer is required to hold at least one frame (`Frames >= 1`), and the addresses `backtrace` writes are a parameter.
- `Backtrace.Name`: `dladdr` and `__cxa_demangle` are combined into one parameter `symbolize`, so a name with a symbol that fails to demangle and a name with no symbol are not told apart.
- `Backtrace.Trace`: when loading the symbols fails, only the numbering of the lines is stated, not their content.
