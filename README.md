# copt in Dafny

A model of copt, a small C library for command-line option parsing that
allocates and copies nothing. A `struct copt` context walks the argument
array:

- `copt_next` moves to the next option and makes it current. This is "-c"
  for each character of a short-option group such as `-xyz`, or the whole
  element for a `--long` option. Without reordering its search stops at
  `--`, at a lone `-` and at the first non-option.
- `copt_opt` tests the current option against a `|`-separated spec such
  as `"F|f|foo"`.
- `copt_arg` and `copt_oarg` return the option's value. The value can be
  attached (`-ovalue`, `-o=value`, `--out=value`) or, for `copt_arg` only,
  be the next element (`-o value`); `copt_oarg` without an attached value
  returns NULL.
- In reorder mode each `copt_next` that moves on to a new element, before
  `argc`, first rotates the next option-looking element forward over the
  non-options before it (a lone `-` counts as a non-option). A call inside
  a short-option group, or one that reaches `argc`, moves nothing. It also notes where a
  detached value would be, and `copt_arg` pulls that value up next to its
  option. In this way options and positionals may be mixed, and the
  positionals end up after `copt_idx`.

The model is split into these modules:

- `CStr` (cstring.dfy) holds C strings as NUL-free character sequences,
  `s[i]` with its terminator, `strchr` as an index, and the test "looks
  like an option".
- `Rotate` (rotate.dfy) is `copt_rotate_right`: a function that specifies
  it, a method that rotates an `array` in place against that function, and
  the facts that the rotation is a permutation and what it does to slices.
- `Scan` (scan.dfy) is the scanner as pure functions on a `Cursor` value
  holding the fields of `struct copt`. `ScanProps` (scan_props.dfy) proves
  what copt.c promises of them.
  - Matching is exact: a spec matches exactly its fields.
  - Grouped short options are reported character by character, in order.
  - The stop conditions.
  - Each reorder step permutes the array and is stable for options and for
    non-options.
  - The outcomes of asking for a value, and the frame of each call.
  - Scanning terminates.
- `Copt.Parser` (copt.dfy) is the `struct copt` context as a class over an
  `array` of arguments. Its methods follow copt.c statement by statement.
  Each is proved to take the context exactly to the state the `Scan`
  function gives. It also keeps the invariant that the array is a
  permutation of the one handed over, and unchanged in non-reorder mode.
- `CoptExamples` (copt_test.dfy) holds the scenarios of copt-test.c and of
  the usage notes, as lemmas.

What the code does is followed where the comments say otherwise:

- **`copt_next` after false.** The comment on `copt_next` suggests that
  once it returns false the options are consumed. In fact false is final
  only once `idx` has reached `argc`. A false return at a positional leaves
  `idx` on that positional, and a further call moves past it and goes on
  scanning. `CoptExamples.ResumesAfterPositional` shows this on
  `testprog pos -x`. `ScanProps.NextWhenDone` shows that the exhausted
  state is a fixed point, and `ScanProps.NextMoves` that no other state is:
  before `argc`, every call moves `idx` or `subidx` forward.
- **A trailing `=` in a spec.** The usage note in copt.h describes a spec
  such as `"c|color="` that would accept only the attached form. copt.c
  does not implement this: the piece `color=` is compared literally, so
  `--color=red` does not match (`CoptExamples.ColorSpecAsWritten`).
- **An `=` inside a group.** For a group character `=`, the `strchr` in
  `copt_opt` finds that very character. The compared text is then empty,
  and it matches an empty middle piece of a spec such as `"a||b"`. No piece
  is compared after a trailing `|`.

## Model

| member | source | states |
|---|---|---|
| CStr.At | copt.c:63 | reading `s[i]` of a C string gives the character, or NUL exactly when `i` is at or past the end |
| CStr.Find | copt.c:136 | `strchr` from a position: a position at or after the start, holding the character unless it is the end |
| CStr.FindSkips | copt.c:136 | no position before the one `strchr` returns holds the character, so it is the first occurrence, or the end when there is none |
| CStr.OptionLooking | copt.c:63-69 | "looks like an option": a '-' followed by at least one more character; `CStr.OptionTest` proves it is the C test on a NUL-terminated string, as also used at copt.c:130 and 178-179 |
| CStr.OptionTest | copt.c:63 | the test `argv[i][0] == '-' && argv[i][1] != '\0'` on a C string holds exactly for a dash followed by at least one more character |
| Scan.Init | copt.c:19-34 | a fresh context is at index 0 with no group, no value slot and no current option, and satisfies the cursor invariant |
| Copt.Parser.constructor | copt.c:19-34 | `copt_init` keeps the array and count it is given; the context equals the model's initial cursor |
| Scan.ShortOpt | copt.c:36-43 | the NUL character gives NULL, and any other character c gives the two-character option "-c" |
| Rotate.RotatedRight | copt.c:45-54 | a block rotated one slot right: its last element comes first, the others move up one, and everything outside the block stays |
| Rotate.RotatedRightSlices | copt.c:45-54 | the rotated array is the prefix, then the block's last element, then the rest of the block, then the suffix |
| Rotate.RotatedRightPermutes | copt.c:45-54 | rotation neither loses nor duplicates an element (same multiset) |
| Rotate.RotateRight | copt.c:46-54 | rotating the array in place leaves exactly the rotated sequence of the old contents |
| Scan.FindOption | copt.c:62-64 | the reorderer's search gives a position from `idx` up to `argc`, holding an option-looking element unless it is `argc` |
| Scan.FindOptionSkips | copt.c:62-64 | every element the search skips is a non-option, so it finds the first option-looking one, or `argc` when there is none |
| Copt.Parser.FindOptionFrom | copt.c:62-64 | the search loop over the array returns the model's search result |
| Scan.ReorderOpt | copt.c:56-73 | the reorder step keeps the cursor invariant and changes only the array and the value slot |
| Scan.MoveOption | copt.c:67-72 | moving the found option keeps the cursor invariant, with the value slot reached only over non-options |
| Scan.PendingAfterReorder | copt.c:65-72 | the elements between the moved option and its value slot are the non-options it was moved over |
| Copt.Parser.ReorderOpt | copt.c:56-73 | the in-place reorderer takes the context to the model's reordered cursor and permutes the array |
| Copt.Parser.MoveOption | copt.c:67-72 | the in-place rotation and value-slot statements give the model's moved cursor and permute the array |
| ScanProps.ReorderOptFound | copt.c:62-72 | with the first option at `f`: it lands at `idx`; the skipped non-options move up one slot in order; nothing else moves; the value slot is `f+1` if that is a non-option, else `argc` |
| ScanProps.ReorderOptNone | copt.c:62-66 | with no option-looking element left, the array is untouched and the value slot is cleared |
| ScanProps.ReorderOptStable | copt.c:56-73 | a reorder step keeps the relative order of the options and of the non-options |
| ScanProps.ReorderOptPermutes | copt.c:56-73 | a reorder step is a permutation of the array |
| ScanProps.KeepMovedOption | copt.c:68 | rotating one option left over non-options keeps the order of both kinds |
| ScanProps.KeepRotated | copt.c:68 | a rotation whose moved element differs in kind from the rest of the block keeps the order of each kind |
| Scan.Classify | copt.c:102-116 | classifying never changes the array or moves backwards; true means the element at `idx` and the current option both look like options; false leaves no current option |
| Scan.Enter | copt.c:96-116 | after leaving an element: false at the end, otherwise (reorder, then) the classification; keeps the invariant |
| Scan.Next | copt.c:78-117 | `copt_next` keeps the invariant and never moves backwards; true exactly leaves an option current at an option-looking element; false leaves none |
| Scan.Advance | copt.c:83-99 | the next character of a group, or leaving the element, with the same guarantees as `Next` |
| ScanProps.AdvanceLeaving | copt.c:85-101 | at the end of a group or outside one, `copt_next` leaves the element for the next one, keeping the invariant |
| ScanProps.AdvanceInGroup | copt.c:85-92 | with characters left in the group, `copt_next` reports the next one on the same element |
| Copt.Parser.Advance | copt.c:83-101 | the group step and the move to the next element in place follow the model and permute the array, leaving it as it was in non-reorder mode |
| Copt.Parser.Next | copt.c:78-117 | the in-place `copt_next` takes the context to the model's next cursor and returns the model's result, keeping the array a permutation of the original and unchanged in non-reorder mode |
| Copt.Parser.Enter | copt.c:96-101 | the end-check and reorder part of `copt_next` follows the model and permutes the array |
| Copt.Parser.Classify | copt.c:102-116 | the classification statements give the model's classification |
| ScanProps.NextWhenDone | copt.c:83-84 | at or past `argc`, `copt_next` is false and only clears the current option, so it is idempotent from then on |
| ScanProps.FirstNext | copt.c:96-99 | the first call skips `argv[0]` and never moves it; with only the program name it returns false at index 1 |
| ScanProps.NextFrame | copt.c:78-117 | `copt_next` never moves elements at or before `idx` or at `argc` and beyond, and moves none in non-reorder mode |
| ScanProps.NextPermutes | copt.c:78-117 | `copt_next` is a permutation of the array |
| ScanProps.NextStable | copt.c:78-117 | `copt_next` keeps the relative order of the options and of the non-options |
| ScanProps.ClassifyCases | copt.c:102-116 | the four outcomes of classification: "--" consumed and false; non-option false; "-c…" opens a group at "-c"; "--name" current as a whole |
| ScanProps.NextLeaving | copt.c:93-101 | at the end of a group or outside one, `copt_next` moves to the next element and classifies it |
| ScanProps.NextInGroup | copt.c:85-92 | with characters left in a group, the next one is reported as "-c" on the same element |
| ScanProps.NextPlain | copt.c:96-116 | without reordering, the next element decides as in the four classification cases |
| ScanProps.NextReorderFound | copt.c:100-116 | with reordering, the first option after the current element is brought next to it: "--" ends the options (consumed), anything else is reported |
| ScanProps.NextReorderNone | copt.c:100-105 | with reordering and only non-options left, scanning stops on the next element with the array unchanged |
| ScanProps.ReorderStopsAtPositionals | copt.c:96-107 | in reorder mode a false return comes right after a consumed "--" or where only non-options remain |
| ScanProps.NextProgress | copt.c:85-116 | every reported option moves to a later element or to a later character of the same one, so a `copt_next` loop ends |
| ScanProps.NextMoves | copt.c:83-116 | before `argc` every call, true or false, moves to a later element or a later character of the same one, so only the exhausted state is a fixed point |
| ScanProps.NextIgnoresCurOpt | copt.c:82 | `copt_next` does not depend on the previous current option |
| ScanProps.OptionsIgnoresCurOpt | copt.c:82 | nor does a whole loop of calls |
| ScanProps.Options | copt.c:75-77 | a `while (copt_next)` loop ends, never moves backwards and leaves no option current |
| ScanProps.OptionsLookLikeOptions | copt.c:75-77 | every option such a loop reports looks like an option |
| ScanProps.OptionsStep | copt.c:75-77 | a loop reports the option of its first call, then those of the rest, and ends where the rest ends |
| ScanProps.GroupEmits | copt.c:85-110 | a short-option group reports "-c" for each of its remaining characters in order, after which the scan goes on, and ends, as from its last character |
| Scan.OptText | copt.c:127-137 | the text `copt_opt` compares never contains '=', and inside a group it is at most one character; `ScanProps.OptTextShort` and `ScanProps.OptTextLong` give it exactly |
| Scan.Listed | copt.c:139-146 | a text compared by the walk over the spec fits in what is left of the spec; `ScanProps.ListedAreFields` proves it holds exactly for the spec's fields |
| Scan.Opt | copt.c:124-147 | `copt_opt`: a match needs a spec at least as long as the compared text; `ScanProps.OptIsExact` proves it is true exactly when that text is a field of the spec |
| Scan.Piece | copt.c:141-142 | the piece from `start` is as long as the distance to the next separator or to the end |
| ScanProps.PieceIsSlice | copt.c:141-142 | the piece is the slice of the spec from `start` up to the next separator or the end |
| ScanProps.PieceHasNoSeparator | copt.c:141-142 | no piece contains a separator |
| ScanProps.ListedIsField | copt.c:140-145 | every piece the spec loop compares is a field of the spec: it starts at the beginning or right after a separator |
| ScanProps.FieldIsListed | copt.c:140-145 | every field that starts before the spec's end is compared by the loop |
| ScanProps.ListedAreFields | copt.c:140-145 | a text is compared by the loop if and only if it is a field of the spec |
| ScanProps.ListedHaveNoSeparator | copt.c:140-145 | a text the loop compares contains no separator |
| ScanProps.OptIsExact | copt.c:124-147 | `copt_opt` is true if and only if the option's text is exactly one of the spec's fields |
| ScanProps.OptTextShort | copt.c:132-137 | in a group the compared text is the one character at `subidx`, or empty for '=' |
| ScanProps.OptTextLong | copt.c:134-137 | for a long option the compared text is the name after "--" up to the first '=' |
| Copt.Parser.Opt | copt.c:124-147 | the C computation of the compared text and the spec loop give the model's answer, which is exact field matching |
| Copt.SearchSpec | copt.c:139-146 | the walk with `start` and `end` over the spec, with its length test before the byte comparison, finds the text if and only if the model's piece walk lists it |
| Scan.Arg | copt.c:159-183 | asking for a value resets group and slot, consumes at most the next element, otherwise changes only the array, and keeps the invariant |
| Scan.TakeNext | copt.c:174-182 | the detached value: at most one element consumed; the array is a permutation of the old one, the noted slot lands at idx+1, and nothing at or before idx or from argc on moves |
| Copt.Parser.Arg | copt.c:159-193 | `copt_arg` and `copt_oarg` in place give the model's value and cursor and keep the array a permutation of the original |
| Copt.Parser.TakeNext | copt.c:174-182 | the rotation and next-element test in place follow the model and permute the array |
| ScanProps.ArgAttachedShort | copt.c:167-169 | a short option with characters after it takes them (less one leading '=') as its value and consumes nothing |
| ScanProps.ArgAttachedLong | copt.c:170-171 | an element holding '=' has as value what follows its first '=' |
| ScanProps.ArgOptionalAbsent | copt.c:172-173 | `copt_oarg` without an attached value gives NULL and never looks at the next element |
| ScanProps.ArgDetachedPlain | copt.c:174-182 | without reordering, `copt_arg` takes the next element unless it is missing or option-looking; a lone "-" is taken |
| ScanProps.ArgDetachedReordered | copt.c:174-182 | with reordering, a noted slot is rotated next to the option and consumed; with no slot the value is missing |
| ScanProps.ArgOutcomes | copt.c:159-183 | a consumed element is the value, is never option-looking and happens only for `copt_arg`; NULL and missing happen only without an attached value |
| ScanProps.ArgFrame | copt.c:176-177 | asking for a value never moves elements at or before `idx` or past `argc`, and moves none in non-reorder mode |
| ScanProps.ArgPermutes | copt.c:176-177 | asking for a value is a permutation of the array |
| ScanProps.ArgKeepsOptionOrder | copt.c:176-177 | pulling a value forward keeps the order of the options |
| Copt.Parser.Idx | copt.c:199 | `copt_idx` is within the argument count |
| Copt.Parser.CurOpt | copt.c:208 | `copt_curopt` is NULL or an option-looking text |
| CoptExamples.NoArguments | copt-test.c:147-149 | only the program name: no options, index 1 |
| CoptExamples.Positionals1 | copt-test.c:151-153 | `arg1`: no options, positionals start at 1 |
| CoptExamples.Positionals2 | copt-test.c:155-158 | `arg1 arg2`: no options, positionals start at 1 |
| CoptExamples.ShortOption1 | copt-test.c:160-162 | `-x`: one option |
| CoptExamples.ShortOption2 | copt-test.c:168-171 | `-x -y`: two options in order |
| CoptExamples.Group1 | copt-test.c:173-177 | `-xyz`: -x, -y, -z |
| CoptExamples.Group2 | copt-test.c:179-185 | `-xyzzy`: -x, -y, -z, -z, -y |
| CoptExamples.StopsAtPositional | copt-test.c:187-191 | `-x nonopt -y`: one option, positionals from `nonopt` |
| CoptExamples.Terminator1 | copt-test.c:193-196 | `-y -- -x`: "--" consumed, `-x` positional |
| CoptExamples.Terminator2 | copt-test.c:204-209 | `-z -- -y nonopt1 nonopt2`: positionals after "--" |
| CoptExamples.LoneDash | copt-test.c:211-216 | `-x - …`: a lone "-" is the first positional |
| CoptExamples.UnknownOption | copt-test.c:218-220 | `-q` is reported as current option "-q" |
| CoptExamples.ResumesAfterPositional | copt.c:75-77 | false at a positional is not final: the next call moves past it and reports a later option |
| CoptExamples.FooListed | copt.c:122-123 | the pieces of the spec F-or-f-or-foo are exactly "F", "f" and "foo" |
| CoptExamples.MatchF | copt.c:122-123 | the spec F-or-f-or-foo matches -F |
| CoptExamples.MatchGroupF | copt.c:122-123 | the spec F-or-f-or-foo matches f inside a group |
| CoptExamples.NoMatchO | copt.c:122-123 | the spec F-or-f-or-foo does not match -o |
| CoptExamples.MatchFoo | copt.c:122-123 | the spec F-or-f-or-foo matches --foo |
| CoptExamples.MatchFooValue | copt.c:136-137 | --foo=bar matches "foo" |
| CoptExamples.NoMatchPrefix | copt.c:143 | --fo does not match "foo" |
| CoptExamples.NoMatchLonger | copt.c:143 | --foox does not match "foo" |
| CoptExamples.NoMatchCase | copt.c:143 | --FOO does not match "foo" |
| CoptExamples.ColorListed | copt.h:24-26 | the pieces of the spec with "c" and "color=" are exactly those two texts |
| CoptExamples.ColorSpecAsWritten | copt.h:24-26 | the spec with pieces "c" and "color=" compares "color=" literally, so --color=red does not match it |
| CoptExamples.MatchEmptyPieces | copt.c:136-142 | an '=' in a group matches the empty middle piece of a spec "a", "", "b" but nothing in a spec "a" with a trailing separator |
| CoptExamples.ShortDetached | copt-test.c:117-119 | `-s sarg` gives "sarg" and consumes it |
| CoptExamples.ShortAttached | copt.h:22-23 | `-ssarg` and `-s=sarg` give "sarg" |
| CoptExamples.LongAttached | copt-test.c:120-122 | `--long-with-arg=optarg` gives "optarg" |
| CoptExamples.LongAttachedEquals | copt.c:170-171 | the value after the first '=' may contain more '=' |
| CoptExamples.DetachedMissing | copt.c:178-180 | an option-looking next element, or none, is no value |
| CoptExamples.DetachedDashAndOptional | copt.c:172-180 | a lone "-" is a value; `copt_oarg` never takes the next element |
| CoptExamples.ReorderFirst | copt.c:56-73 | `pos1 -x pos2 …`: -x is brought forward and pos2 noted as its slot |
| CoptExamples.ReorderSecond | copt.c:56-73 | -s is brought forward over both positionals and val noted as its slot |
| CoptExamples.ReorderValue | copt.c:174-182 | `copt_arg` pulls val next to -s and consumes it |
| CoptExamples.ReorderLast | copt.c:96-105 | only positionals remain: scan ends at the first |

## Left out

- `copt_noarg` (copt.c:149-157) calls the callback or prints a message to
  standard error and exits. The model returns the `Missing` outcome
  instead, and the program's reaction is up to the caller.
- `copt_set_noargfn` (copt.c:213-218) only stores a foreign callback
  and its auxiliary argument. Neither field is modelled, because
  the callback's behaviour is unknown code.
- Scan.ShortOpt: the two-character `shortopt` buffer inside the context is
  not modelled. The current option is a string value, so the lifetime rule
  (valid only until the next call) and the aliasing between `curopt` and
  that buffer are not captured.
- One Dafny `char` stands for one C `char`, a byte. copt.c steps through
  a group one byte at a time (copt.c:89-92), so a multi-byte UTF-8
  character inside `-…` is several short options there; no encoding is
  modelled.
- The C `int` fields are natural numbers. A negative `argc` and integer
  overflow, which needs more than `INT_MAX` arguments, are not modelled.
- NULL: a NULL current option is the empty string. The array's
  elements are never NULL, and the model requires `argc` to be at most the
  array's length.
- The C `assert` calls become preconditions or proved invariants:
  - copt.c:50 (`argc > 0` in `copt_rotate_right`) is the precondition
    `0 < n` of `Rotate.RotateRight` and `Rotate.RotatedRight`;
  - copt.c:87-88 and 97 are part of the cursor invariant;
  - copt.c:130 is the precondition of `Opt` (an option-looking current
    element);
  - copt.c:112 holds by the branch it sits in: the element is
    option-looking and its second character is '-';
  - copt.c:181 follows from the branch above it.
- Copt.Parser.Arg requires `idx < argc`. copt.c reads `argv[idx]` without
  a check, so calling it after the scan has ended is undefined behaviour.
- `copt_dbg_dump`, declared in copt.h, has no definition in copt.c and is
  not part of this model.
- ScanProps.Options models a loop that never asks for values. A loop that
  mixes `copt_arg` calls is covered step by step, through the contracts of
  `Next` and `Arg`.
- ScanProps.ReorderOptStable: the reorder-mode promise is proved per
  `copt_next` call (stability in `ScanProps.NextStable`, permutation, where
  the scan stops) and on a worked scenario.
  It is not proved as one theorem about a whole loop that says "options
  first, positionals after, both in order".
- The test program copt-test.c has five defects:
  - it calls `copt_done`, which copt.c does not define;
  - it counts its terminating NULL in `argc`;
  - its `actual` records values into the expected array;
  - `test_verify` compares only the counts, not the recorded items
    (copt-test.c:135-141);
  - it expects the unknown option `-q` as "q" (copt-test.c:218-219), while
    `copt_curopt` gives "-q".

  The examples use the argument lists without the NULL, and the `copt_next`
  loop in place of `copt_done`.
