/** The scanner of copt.c as functions on a cursor value: `copt_next`,
    `copt_reorder_opt`, `copt_opt` and `copt_arg_impl`. The imperative
    class in copt.dfy is proved to follow these step for step. */
module Scan {
  import opened CStr
  import Rotate

  /** `struct copt`: the argument array, its count, the cursor fields and the
      reorder flag. `curopt == ""` stands for NULL. */
  datatype Cursor = Cursor(
    argv: seq<CString>,
    argc: nat,
    idx: nat,
    subidx: nat,
    argidx: nat,
    curopt: string,
    reorder: bool)

  /** What `copt_arg_impl` hands back: a value, NULL from the optional form,
      or the missing-value outcome (where `copt_noarg` takes over). */
  datatype ArgResult = Value(text: string) | Absent | Missing

  /** The cursor invariant kept by every operation. */
  ghost predicate Valid(c: Cursor)
  {
    && c.argc <= |c.argv|
    && c.idx <= c.argc
    // inside a short group: a short option element, subidx on one of its characters
    && (c.subidx > 0 ==> c.idx < c.argc && OptionLooking(c.argv[c.idx]) && c.subidx < |c.argv[c.idx]|)
    && c.argidx <= c.argc
    && (!c.reorder ==> c.argidx == 0)
    // a pending value slot is reached only over non-option elements
    && (c.idx < c.argidx < c.argc ==>
          forall k :: c.idx < k <= c.argidx ==> !OptionLooking(c.argv[k]))
    && (c.curopt == "" || OptionLooking(c.curopt))
  }

  /** `copt_init`. */
  function Init(argv: seq<CString>, argc: nat, reorder: bool): (c: Cursor)
    requires argc <= |argv|
    ensures Valid(c)
  {
    Cursor(argv, argc, 0, 0, 0, "", reorder)
  }

  /** `copt_set_shortopt`: "-c" for a character, NULL for the terminator. */
  function ShortOpt(ch: char): (r: string)
    ensures ch == NUL <==> r == ""
    ensures ch != NUL ==> OptionLooking(r) && r[1..] == [ch]
  {
    if ch == NUL then "" else ['-', ch]
  }

  /** The search loop of `copt_reorder_opt`: the first option-looking element
      at or after `from`, or `argc`. */
  function FindOption(argv: seq<CString>, from: nat, argc: nat): (i: nat)
    requires from <= argc <= |argv|
    ensures from <= i <= argc
    ensures i < argc ==> OptionLooking(argv[i])
    decreases argc - from
  {
    if from == argc then argc
    else if OptionLooking(argv[from]) then from
    else FindOption(argv, from + 1, argc)
  }

  /** No element from `from` up to the one `FindOption` returns looks like
      an option. */
  lemma {:induction false} FindOptionSkips(argv: seq<CString>, from: nat, argc: nat)
    requires from <= argc <= |argv|
    ensures forall k :: from <= k < FindOption(argv, from, argc) ==> !OptionLooking(argv[k])
    decreases argc - from
  {
    if from < argc && !OptionLooking(argv[from]) {
      FindOptionSkips(argv, from + 1, argc);
    }
  }

  /** `copt_reorder_opt`: bring the next option-looking element to `idx` over
      the non-options before it and note where its detached value may be. */
  function ReorderOpt(c: Cursor): (r: Cursor)
    requires Valid(c) && c.reorder && c.idx < c.argc && c.subidx == 0
    ensures Valid(r)
    ensures r.argc == c.argc && r.idx == c.idx && r.subidx == c.subidx && r.curopt == c.curopt && r.reorder
    ensures |r.argv| == |c.argv|
  {
    var f := FindOption(c.argv, c.idx, c.argc);
    if f >= c.argc then c.(argidx := 0) else MoveOption(c, f)
  }

  /** The rotation and value-slot bookkeeping of `copt_reorder_opt` once the
      search has found an option-looking element at `f`. */
  function MoveOption(c: Cursor, f: nat): (r: Cursor)
    requires Valid(c) && c.reorder && c.idx < c.argc && c.subidx == 0
    requires f == FindOption(c.argv, c.idx, c.argc) && f < c.argc
    ensures Valid(r)
    ensures r.argc == c.argc && r.idx == c.idx && r.subidx == c.subidx && r.curopt == c.curopt && r.reorder
    ensures |r.argv| == |c.argv|
  {
    var i := f + 1;
    var a := Rotate.RotatedRight(c.argv, c.idx, i - c.idx);
    var p := if i >= c.argc || !OptionLooking(a[i]) then i else c.argc;
    PendingAfterReorder(c, f, a, p);
    c.(argv := a, argidx := p)
  }

  /** The slots between the relocated option and its pending value hold the
      positionals it was moved over. */
  lemma PendingAfterReorder(c: Cursor, f: nat, a: seq<CString>, p: nat)
    requires Valid(c) && c.reorder && c.idx < c.argc && c.subidx == 0
    requires f == FindOption(c.argv, c.idx, c.argc) && f < c.argc
    requires a == Rotate.RotatedRight(c.argv, c.idx, f + 1 - c.idx)
    requires p == f + 1 || p == c.argc
    requires p == f + 1 && p < c.argc ==> !OptionLooking(a[p])
    ensures Valid(c.(argv := a, argidx := p))
  {
    FindOptionSkips(c.argv, c.idx, c.argc);
    forall k | c.idx < k <= f ensures !OptionLooking(a[k]) {
      assert a[k] == c.argv[k - 1];
    }
  }

  /** The classification at the end of `copt_next`, once `idx` has moved on
      (and, in reorder mode, the reorderer has run). */
  function Classify(c: Cursor): (r: (bool, Cursor))
    requires Valid(c) && c.idx < c.argc && c.subidx == 0 && c.curopt == ""
    ensures Valid(r.1) && r.1.argv == c.argv && c.idx <= r.1.idx
    ensures r.0 ==> r.1.idx < r.1.argc && OptionLooking(r.1.argv[r.1.idx]) && OptionLooking(r.1.curopt)
    ensures !r.0 ==> r.1.curopt == ""
  {
    var s := c.argv[c.idx];
    if s == "--" then (false, c.(idx := c.idx + 1))   // "--" ends the options and is consumed
    else if At(s, 0) != '-' then (false, c)           // a non-option
    else if At(s, 1) == NUL then (false, c)           // a lone "-"
    else if s[1] != '-' then (true, c.(subidx := 1, curopt := ShortOpt(s[1])))
    else (true, c.(subidx := 0, curopt := s))         // a long option
  }

  /** `copt_next` after it has left the previous element. */
  function Enter(c: Cursor): (r: (bool, Cursor))
    requires Valid(c) && c.subidx == 0 && c.curopt == ""
    ensures Valid(r.1) && c.idx <= r.1.idx
    ensures r.1.argc == c.argc && r.1.reorder == c.reorder
    ensures |r.1.argv| == |c.argv|
    ensures r.0 ==> r.1.idx < r.1.argc && OptionLooking(r.1.argv[r.1.idx]) && OptionLooking(r.1.curopt)
    ensures !r.0 ==> r.1.curopt == ""
  {
    if c.idx >= c.argc then (false, c)
    else Classify(if c.reorder then ReorderOpt(c) else c)
  }

  /** `copt_next`: the next short option of a group, or the classification of
      the next element; true while an option is current. It starts by
      forgetting the current option. */
  function Next(c: Cursor): (r: (bool, Cursor))
    requires Valid(c)
    ensures Valid(r.1) && c.idx <= r.1.idx
    ensures r.1.argc == c.argc && r.1.reorder == c.reorder
    ensures |r.1.argv| == |c.argv|
    ensures r.0 ==> r.1.idx < r.1.argc && OptionLooking(r.1.argv[r.1.idx]) && OptionLooking(r.1.curopt)
    ensures !r.0 ==> r.1.curopt == ""
  {
    Advance(c.(curopt := ""))
  }

  /** `copt_next` once the current option is NULL. */
  function Advance(c: Cursor): (r: (bool, Cursor))
    requires Valid(c) && c.curopt == ""
    ensures Valid(r.1) && c.idx <= r.1.idx
    ensures r.1.argc == c.argc && r.1.reorder == c.reorder
    ensures |r.1.argv| == |c.argv|
    ensures r.0 ==> r.1.idx < r.1.argc && OptionLooking(r.1.argv[r.1.idx]) && OptionLooking(r.1.curopt)
    ensures !r.0 ==> r.1.curopt == ""
  {
    if c.idx >= c.argc then (false, c)
    else if c.subidx > 0 && At(c.argv[c.idx], c.subidx + 1) != NUL then
      (true, c.(subidx := c.subidx + 1, curopt := ShortOpt(c.argv[c.idx][c.subidx + 1])))
    else Enter(c.(idx := c.idx + 1, subidx := 0))
  }

  /** The piece of `spec` from `start` up to the next '|' or the end. */
  function Piece(spec: string, start: nat): (p: string)
    requires start <= |spec|
    ensures |p| == Find(spec, '|', start) - start
    decreases |spec| - start
  {
    if start == |spec| || spec[start] == '|' then [] else [spec[start]] + Piece(spec, start + 1)
  }

  /** Whether `text` is among the pieces `copt_opt`'s loop compares from
      position `start` of the spec on: each runs up to the next '|'; the walk
      stops at the end of the spec, so nothing is compared after a trailing
      '|' or in an empty spec. */
  predicate Listed(spec: string, start: nat, text: string)
    requires start <= |spec|
    ensures Listed(spec, start, text) ==> start + |text| <= |spec|
    decreases |spec| - start
  {
    && start < |spec|
    && var end := Find(spec, '|', start);
       || Piece(spec, start) == text
       || (end < |spec| && Listed(spec, end + 1, text))
  }

  /** The text `copt_opt` compares: the character at `subidx` in a group, the
      name after "--" otherwise, in both cases cut at the first '=' from there. */
  function OptText(s: string, subidx: nat): (t: string)
    requires |s| >= 2 && subidx < |s|
    ensures '=' !in t
    ensures subidx > 0 ==> |t| <= 1
  {
    var start := if subidx > 0 then subidx else 2;
    var len := if subidx > 0 then 1 else |s| - 2;
    var eq := Find(s, '=', start);
    FindSkips(s, '=', start);
    s[start .. if start + len < eq then start + len else eq]
  }

  /** `copt_opt`: the current option text equals one of the alternatives. */
  predicate Opt(c: Cursor, spec: CString)
    requires Valid(c) && c.idx < c.argc && OptionLooking(c.argv[c.idx])
    ensures Opt(c, spec) ==> |OptText(c.argv[c.idx], c.subidx)| <= |spec|
  {
    Listed(spec, 0, OptText(c.argv[c.idx], c.subidx))
  }

  /** `copt_arg_impl`: the current option's value, attached or detached;
      `optional` selects `copt_oarg` over `copt_arg`. */
  function Arg(c: Cursor, optional: bool): (r: (ArgResult, Cursor))
    requires Valid(c) && c.idx < c.argc
    ensures Valid(r.1) && r.1.subidx == 0 && r.1.argidx == 0
    ensures r.1 == c.(argv := r.1.argv, idx := r.1.idx, subidx := 0, argidx := 0)
    ensures r.1.idx == c.idx || r.1.idx == c.idx + 1
    ensures |r.1.argv| == |c.argv|
  {
    var s := c.argv[c.idx];
    var c' := c.(subidx := 0, argidx := 0);
    if c.subidx > 0 && At(s, c.subidx + 1) != NUL then
      (Value(s[c.subidx + 1 + (if s[c.subidx + 1] == '=' then 1 else 0)..]), c')
    else if c.subidx == 0 && Find(s, '=', 0) < |s| then
      (Value(s[Find(s, '=', 0) + 1..]), c')
    else if optional then (Absent, c')
    else TakeNext(c', c.argidx)
  }

  /** The detached value of `copt_arg_impl`: with the value slot noted by the
      reorderer at `pending`, pull it next to the option and take it unless it
      is missing or looks like an option. */
  function TakeNext(c: Cursor, pending: nat): (r: (ArgResult, Cursor))
    requires Valid(c) && c.idx < c.argc && c.subidx == 0 && c.argidx == 0 && pending <= c.argc
    ensures Valid(r.1) && r.1.subidx == 0 && r.1.argidx == 0
    ensures r.1 == c.(argv := r.1.argv, idx := r.1.idx)
    ensures r.1.idx == c.idx || r.1.idx == c.idx + 1
    ensures |r.1.argv| == |c.argv|
    ensures forall k :: 0 <= k < |c.argv| && (k <= c.idx || c.argc <= k) ==> r.1.argv[k] == c.argv[k]
    ensures multiset(r.1.argv) == multiset(c.argv)
    ensures c.idx < pending < c.argc ==> r.1.argv[c.idx + 1] == c.argv[pending]
  {
    if pending >= c.argc then (Missing, c)
    else
      var a := if pending > c.idx then Rotate.RotatedRight(c.argv, c.idx + 1, pending - c.idx) else c.argv;
      assert multiset(a) == multiset(c.argv) by {
        if pending > c.idx { Rotate.RotatedRightPermutes(c.argv, c.idx + 1, pending - c.idx); }
      }
      if c.idx + 1 >= c.argc || OptionLooking(a[c.idx + 1]) then (Missing, c.(argv := a))
      else (Value(a[c.idx + 1]), c.(argv := a, idx := c.idx + 1))
  }
}
