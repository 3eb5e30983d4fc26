/** What copt.c promises about its scanner, proved of the functions in Scan. */
module ScanProps {
  import opened CStr
  import opened Scan
  import Rotate

  // ---------------------------------------------------------------------
  // Matching (`copt_opt`)
  // ---------------------------------------------------------------------

  /** `w` is one '|'-delimited field of `spec` that starts before the end of
      `spec` (the walk of `copt_opt` never starts at the terminator). */
  ghost predicate IsField(spec: string, w: string)
  {
    exists i: nat :: FieldStart(spec, i) && spec[i..Find(spec, '|', i)] == w
  }

  /** A field of a spec starts before the end, at the start or after a '|';
      it runs to the next '|' or the end. */
  ghost predicate FieldStart(spec: string, i: nat)
  {
    i < |spec| && (i == 0 || spec[i - 1] == '|')
  }

  /** A piece is the slice of the spec up to the next '|'. */
  lemma {:induction false} PieceIsSlice(spec: string, start: nat)
    requires start <= |spec|
    ensures Piece(spec, start) == spec[start..Find(spec, '|', start)]
    decreases |spec| - start
  {
    if start < |spec| && spec[start] != '|' {
      PieceIsSlice(spec, start + 1);
      var end := Find(spec, '|', start);
      assert end == Find(spec, '|', start + 1);
      SliceCons(spec, start, end);
    }
  }

  /** A non-empty slice is its first element followed by the rest. */
  lemma SliceCons(s: string, i: nat, j: nat)
    requires i < j <= |s|
    ensures s[i..j] == [s[i]] + s[i + 1..j]
  {
  }

  /** No piece contains the separator. */
  lemma {:induction false} PieceHasNoSeparator(spec: string, start: nat)
    requires start <= |spec|
    ensures '|' !in Piece(spec, start)
    decreases |spec| - start
  {
    if start < |spec| && spec[start] != '|' {
      PieceHasNoSeparator(spec, start + 1);
    }
  }

  /** Every piece the walk from a field start compares is the piece of a
      field start at or after it, which is returned. */
  lemma {:induction false} ListedIsField(spec: string, start: nat, w: string) returns (i: nat)
    requires start <= |spec| && (start == 0 || spec[start - 1] == '|')
    requires Listed(spec, start, w)
    ensures start <= i && FieldStart(spec, i) && Piece(spec, i) == w
    decreases |spec| - start
  {
    if Piece(spec, start) == w {
      i := start;
    } else {
      var end := Find(spec, '|', start);
      i := ListedIsField(spec, end + 1, w);
    }
  }

  /** Every field at or after a field start is compared by the walk from it. */
  lemma {:induction false} FieldIsListed(spec: string, start: nat, i: nat)
    requires FieldStart(spec, i) && start <= i && (start == 0 || spec[start - 1] == '|')
    ensures Listed(spec, start, Piece(spec, i))
    decreases |spec| - start
  {
    if start < i {
      var end := BarBefore(spec, start, i);
      FieldIsListed(spec, end + 1, i);
    }
  }

  /** A field after `start` starts after the first '|' from `start`. */
  lemma BarBefore(spec: string, start: nat, i: nat) returns (end: nat)
    requires FieldStart(spec, i) && start < i
    ensures end == Find(spec, '|', start) && end < i && spec[end] == '|'
  {
    assert spec[i - 1] == '|';
    end := Find(spec, '|', start);
    FindSkips(spec, '|', start);
  }

  /** The walk of `copt_opt` compares exactly the fields of the spec. */
  lemma ListedAreFields(spec: string, w: string)
    ensures Listed(spec, 0, w) <==> IsField(spec, w)
  {
    if Listed(spec, 0, w) {
      var i := ListedIsField(spec, 0, w);
      PieceIsSlice(spec, i);
    }
    if IsField(spec, w) {
      var i: nat :| FieldStart(spec, i) && spec[i..Find(spec, '|', i)] == w;
      PieceIsSlice(spec, i);
      FieldIsListed(spec, 0, i);
    }
  }

  /** No piece the walk compares contains the separator. */
  lemma ListedHaveNoSeparator(spec: string, w: string)
    requires Listed(spec, 0, w)
    ensures '|' !in w
  {
    var i := ListedIsField(spec, 0, w);
    PieceHasNoSeparator(spec, i);
  }

  /** `copt_opt` is exact matching: true exactly when the current option text
      is one of the spec's fields (no prefixes, no case folding). */
  lemma OptIsExact(c: Cursor, spec: CString)
    requires Valid(c) && c.idx < c.argc && OptionLooking(c.argv[c.idx])
    ensures Opt(c, spec) <==> IsField(spec, OptText(c.argv[c.idx], c.subidx))
  {
    ListedAreFields(spec, OptText(c.argv[c.idx], c.subidx));
  }

  /** In a group the compared text is the character at `subidx`; since the
      first '=' from there on bounds it, an '=' character compares as "". */
  lemma OptTextShort(s: string, subidx: nat)
    requires |s| >= 2 && 0 < subidx < |s|
    ensures OptText(s, subidx) == if s[subidx] == '=' then "" else [s[subidx]]
  {
  }

  /** For a long option the compared text is the name after "--" up to, not
      including, the first '='. */
  lemma OptTextLong(s: string)
    requires |s| >= 2
    ensures var t := OptText(s, 0);
      && '=' !in t
      && 2 + |t| <= |s| && s[2 .. 2 + |t|] == t
      && (2 + |t| == |s| || s[2 + |t|] == '=')
  {
    FindSkips(s, '=', 2);
  }

  // ---------------------------------------------------------------------
  // Order of option and non-option elements
  // ---------------------------------------------------------------------

  /** The option-looking (`opt`) or the other (`!opt`) elements, in order. */
  function Keep(s: seq<CString>, opt: bool): (r: seq<CString>)
    decreases |s|
  {
    if s == [] then []
    else (if OptionLooking(s[0]) == opt then [s[0]] else []) + Keep(s[1..], opt)
  }

  lemma {:induction false} KeepAppend(a: seq<CString>, b: seq<CString>, opt: bool)
    ensures Keep(a + b, opt) == Keep(a, opt) + Keep(b, opt)
    decreases |a|
  {
    if a == [] {
      assert a + b == b;
    } else {
      var h := if OptionLooking(a[0]) == opt then [a[0]] else [];
      assert (a + b)[0] == a[0];
      assert (a + b)[1..] == a[1..] + b;
      assert Keep(a + b, opt) == h + Keep(a[1..] + b, opt);
      assert Keep(a, opt) == h + Keep(a[1..], opt);
      KeepAppend(a[1..], b, opt);
    }
  }

  lemma {:induction false} KeepNone(a: seq<CString>, opt: bool)
    requires forall k :: 0 <= k < |a| ==> OptionLooking(a[k]) != opt
    ensures Keep(a, opt) == []
    decreases |a|
  {
    if a != [] {
      KeepNone(a[1..], opt);
    }
  }

  /** Filtering four consecutive pieces. */
  lemma KeepFour(p: seq<CString>, b: seq<CString>, x: seq<CString>, q: seq<CString>, opt: bool)
    ensures Keep(p + b + x + q, opt) == Keep(p, opt) + Keep(b, opt) + Keep(x, opt) + Keep(q, opt)
  {
    KeepAppend(p + b + x, q, opt);
    KeepAppend(p + b, x, opt);
    KeepAppend(p, b, opt);
  }

  /** Rotating a block keeps the order of the `opt` elements when the moved
      last element or all the others are of the other kind. */
  lemma KeepRotated(s: seq<CString>, lo: nat, n: nat, opt: bool)
    requires 0 < n && lo + n <= |s|
    requires OptionLooking(s[lo + n - 1]) != opt
          || forall k :: lo <= k < lo + n - 1 ==> OptionLooking(s[k]) != opt
    ensures Keep(Rotate.RotatedRight(s, lo, n), opt) == Keep(s, opt)
  {
    var p, b, x, q := s[..lo], s[lo .. lo + n - 1], [s[lo + n - 1]], s[lo + n..];
    assert s == p + b + x + q;
    Rotate.RotatedRightSlices(s, lo, n);
    KeepFour(p, b, x, q, opt);
    KeepFour(p, x, b, q, opt);
    if OptionLooking(s[lo + n - 1]) != opt {
      KeepNone(x, opt);
    } else {
      KeepNone(b, opt);
    }
    SwapEmpty(Keep(p, opt), Keep(b, opt), Keep(x, opt), Keep(q, opt));
  }

  /** Two adjacent pieces commute when one of them is empty. */
  lemma SwapEmpty(p: seq<CString>, b: seq<CString>, x: seq<CString>, q: seq<CString>)
    requires b == [] || x == []
    ensures p + x + b + q == p + b + x + q
  {
    assert p + x + b == p + b + x;
  }

  // ---------------------------------------------------------------------
  // The reorderer (`copt_reorder_opt`)
  // ---------------------------------------------------------------------

  /** When the first option-looking element at or after `idx` is at `f`, it is
      moved to `idx`, the non-options before it move up one slot in order,
      nothing else moves, and the value slot is the element after it unless
      that one looks like an option (or does not exist). */
  lemma ReorderOptFound(c: Cursor, f: nat)
    requires Valid(c) && c.reorder && c.idx < c.argc && c.subidx == 0
    requires c.idx <= f < c.argc && OptionLooking(c.argv[f])
    requires forall k :: c.idx <= k < f ==> !OptionLooking(c.argv[k])
    ensures var r := ReorderOpt(c);
      && r.argv[c.idx] == c.argv[f]
      && (forall k :: c.idx < k <= f ==> r.argv[k] == c.argv[k - 1])
      && (forall k :: 0 <= k < |c.argv| && (k < c.idx || f < k) ==> r.argv[k] == c.argv[k])
      && r.argidx == if f + 1 < c.argc && !OptionLooking(c.argv[f + 1]) then f + 1 else c.argc
  {
    FindOptionSkips(c.argv, c.idx, c.argc);
  }

  /** Without an option-looking element at or after `idx` the array is left
      alone and there is no value slot. */
  lemma ReorderOptNone(c: Cursor)
    requires Valid(c) && c.reorder && c.idx < c.argc && c.subidx == 0
    requires forall k :: c.idx <= k < c.argc ==> !OptionLooking(c.argv[k])
    ensures ReorderOpt(c) == c.(argidx := 0)
  {
    FindOptionSkips(c.argv, c.idx, c.argc);
  }

  /** The reorderer is a stable step: both the options and the non-options
      keep their relative order. */
  lemma ReorderOptStable(c: Cursor, opt: bool)
    requires Valid(c) && c.reorder && c.idx < c.argc && c.subidx == 0
    ensures Keep(ReorderOpt(c).argv, opt) == Keep(c.argv, opt)
  {
    var f := FindOption(c.argv, c.idx, c.argc);
    var a := ReorderOpt(c).argv;
    FindOptionSkips(c.argv, c.idx, c.argc);
    if f < c.argc {
      assert a == Rotate.RotatedRight(c.argv, c.idx, f + 1 - c.idx);
      KeepMovedOption(c.argv, c.idx, f, opt);
    } else {
      assert a == c.argv;
    }
  }

  /** The reorderer's two outcomes: no option-looking element from `idx` on
      leaves everything but the value slot alone ... */
  lemma ReorderOptSkip(c: Cursor)
    requires Valid(c) && c.reorder && c.idx < c.argc && c.subidx == 0
    requires FindOption(c.argv, c.idx, c.argc) >= c.argc
    ensures ReorderOpt(c) == c.(argidx := 0)
  {
  }

  /** ... and one at `f` is moved down to `idx`; the value slot noted
      before plays no part. */
  lemma ReorderOptFinds(c: Cursor, f: nat)
    requires Valid(c) && c.reorder && c.idx < c.argc && c.subidx == 0
    requires f == FindOption(c.argv, c.idx, c.argc) && f < c.argc
    ensures ReorderOpt(c) == MoveOption(c.(argidx := 0), f)
  {
  }

  /** Moving the option at `f`: the rotation, and the slot after it noted
      when it holds no option. */
  lemma MoveOptionSteps(c: Cursor, f: nat, a: seq<CString>, p: nat)
    requires Valid(c) && c.reorder && c.idx < c.argc && c.subidx == 0
    requires f == FindOption(c.argv, c.idx, c.argc) && f < c.argc
    requires a == Rotate.RotatedRight(c.argv, c.idx, f + 1 - c.idx)
    requires p == if f + 1 >= c.argc || !OptionLooking(a[f + 1]) then f + 1 else c.argc
    ensures MoveOption(c, f) == c.(argv := a, argidx := p)
  {
  }

  /** The reorderer only moves elements: the new array is a permutation of
      the old one. */
  lemma ReorderOptPermutes(c: Cursor)
    requires Valid(c) && c.reorder && c.idx < c.argc && c.subidx == 0
    ensures multiset(ReorderOpt(c).argv) == multiset(c.argv)
  {
    var f := FindOption(c.argv, c.idx, c.argc);
    if f < c.argc {
      assert ReorderOpt(c).argv == Rotate.RotatedRight(c.argv, c.idx, f + 1 - c.idx);
      Rotate.RotatedRightPermutes(c.argv, c.idx, f + 1 - c.idx);
    }
  }

  /** Moving an option left over non-options is stable for both kinds. */
  lemma KeepMovedOption(s: seq<CString>, lo: nat, f: nat, opt: bool)
    requires lo <= f < |s| && OptionLooking(s[f])
    requires forall k :: lo <= k < f ==> !OptionLooking(s[k])
    ensures Keep(Rotate.RotatedRight(s, lo, f + 1 - lo), opt) == Keep(s, opt)
  {
    KeepRotated(s, lo, f + 1 - lo, opt);
  }

  // ---------------------------------------------------------------------
  // The scanner (`copt_next`)
  // ---------------------------------------------------------------------

  /** Once the cursor has reached `argc`, `copt_next` is false and changes
      nothing but the current option, so calling it again is a no-op. */
  lemma NextWhenDone(c: Cursor)
    requires Valid(c) && c.idx >= c.argc
    ensures Next(c) == (false, c.(curopt := ""))
    ensures Next(Next(c).1) == Next(c)
  {
  }

  /** The first call skips the program name in `argv[0]` and leaves it where
      it is; if it reports an option, that option is `argv[1]`'s. */
  lemma FirstNext(argv: seq<CString>, argc: nat, reorder: bool)
    requires 1 <= argc <= |argv|
    ensures var r := Next(Init(argv, argc, reorder));
      && 1 <= r.1.idx && r.1.argv[0] == argv[0]
      && (r.0 ==> r.1.idx == 1)
      && (argc == 1 ==> r == (false, Init(argv, argc, reorder).(idx := 1)))
  {
    var c := Init(argv, argc, reorder);
    assert Next(c) == Enter(c.(idx := 1));
    NextFrame(c);
  }

  /** `copt_next` moves only slots after the current element and before
      `argc`, and moves nothing outside reorder mode. */
  lemma NextFrame(c: Cursor)
    requires Valid(c)
    ensures var r := Next(c).1;
      && (forall k :: 0 <= k < |c.argv| && (k <= c.idx || c.argc <= k) ==> r.argv[k] == c.argv[k])
      && (!c.reorder ==> r.argv == c.argv)
  {
  }

  /** `copt_next` loses no element and invents none: the array after it is a
      permutation of the array before. */
  lemma NextPermutes(c: Cursor)
    requires Valid(c)
    ensures multiset(Next(c).1.argv) == multiset(c.argv)
  {
    if c.idx < c.argc && Leaving(c) {
      NextLeaving(c);
      var d := c.(idx := c.idx + 1, subidx := 0, curopt := "");
      if d.idx < d.argc && d.reorder {
        assert Next(c).1.argv == ReorderOpt(d).argv;
        ReorderOptPermutes(d);
      }
    } else if c.idx < c.argc {
      NextInGroup(c);
    }
  }

  /** `copt_next` is a stable step: the options and the non-options each
      keep their relative order. */
  lemma NextStable(c: Cursor, opt: bool)
    requires Valid(c)
    ensures Keep(Next(c).1.argv, opt) == Keep(c.argv, opt)
  {
    if c.idx < c.argc && Leaving(c) {
      NextLeaving(c);
      var d := c.(idx := c.idx + 1, subidx := 0, curopt := "");
      if d.idx < d.argc && d.reorder {
        assert Next(c).1.argv == ReorderOpt(d).argv;
        ReorderOptStable(d, opt);
      }
    } else if c.idx < c.argc {
      NextInGroup(c);
    }
  }

  /** `copt_next` is leaving the current element: no group, or a group at
      its last character. */
  ghost predicate Leaving(c: Cursor)
    requires Valid(c) && c.idx < c.argc
  {
    c.subidx == 0 || c.subidx + 1 == |c.argv[c.idx]|
  }

  /** The four outcomes of classifying the element at `idx`. */
  lemma ClassifyCases(c: Cursor)
    requires Valid(c) && c.idx < c.argc && c.subidx == 0 && c.curopt == ""
    ensures var s := c.argv[c.idx];
      && (s == "--" ==> Classify(c) == (false, c.(idx := c.idx + 1)))
      && (!OptionLooking(s) ==> Classify(c) == (false, c))
      && (OptionLooking(s) && s[1] != '-' ==> Classify(c) == (true, c.(subidx := 1, curopt := s[..2])))
      && (OptionLooking(s) && s[1] == '-' && s != "--" ==> Classify(c) == (true, c.(curopt := s)))
  {
    var s := c.argv[c.idx];
    if OptionLooking(s) {
      assert ['-', s[1]] == s[..2];
    }
  }

  /** Leaving the element, `copt_next` moves to the next one and classifies
      it (after the reorderer in reorder mode). */
  lemma NextLeaving(c: Cursor)
    requires Valid(c) && c.idx < c.argc && Leaving(c)
    ensures Valid(c.(idx := c.idx + 1, subidx := 0, curopt := ""))
    ensures Next(c) == Enter(c.(idx := c.idx + 1, subidx := 0, curopt := ""))
  {
    var c0 := c.(curopt := "");
    AdvanceLeaving(c0);
    assert c0.(idx := c.idx + 1, subidx := 0) == c.(idx := c.idx + 1, subidx := 0, curopt := "");
  }

  /** `copt_next` past its first statement, leaving the element. */
  lemma AdvanceLeaving(c: Cursor)
    requires Valid(c) && c.curopt == "" && c.idx < c.argc && Leaving(c)
    ensures Valid(c.(idx := c.idx + 1, subidx := 0))
    ensures Advance(c) == Enter(c.(idx := c.idx + 1, subidx := 0))
  {
    LeavingValid(c);
    assert c.subidx > 0 ==> At(c.argv[c.idx], c.subidx + 1) == NUL;
  }

  /** Moving on to the next element keeps the invariant. */
  lemma LeavingValid(c: Cursor)
    requires Valid(c) && c.idx < c.argc
    ensures Valid(c.(idx := c.idx + 1, subidx := 0))
  {
  }

  /** `copt_next` past its first statement, inside a group with characters
      left. */
  lemma AdvanceInGroup(c: Cursor)
    requires Valid(c) && c.curopt == "" && c.idx < c.argc && !Leaving(c)
    ensures Advance(c) == (true, c.(subidx := c.subidx + 1, curopt := ShortOpt(c.argv[c.idx][c.subidx + 1])))
  {
  }

  /** Inside a group with characters left, `copt_next` reports the next
      character as "-c" and stays on the element. */
  lemma NextInGroup(c: Cursor)
    requires Valid(c) && c.idx < c.argc && !Leaving(c)
    ensures var s := c.argv[c.idx];
      Next(c) == (true, c.(subidx := c.subidx + 1, curopt := ['-', s[c.subidx + 1]]))
  {
  }

  /** Without reordering, the element after the current one decides: "--" is
      consumed and ends the options; a non-option or a lone "-" ends them
      without being consumed; "-c..." opens a group at its first character;
      "--name..." is a long option whose whole text is current. */
  lemma NextPlain(c: Cursor)
    requires Valid(c) && !c.reorder && c.idx + 1 < c.argc && Leaving(c)
    ensures var e := c.argv[c.idx + 1];
      var d := c.(idx := c.idx + 1, subidx := 0, curopt := "");
      && (e == "--" ==> Next(c) == (false, d.(idx := c.idx + 2)))
      && (!OptionLooking(e) ==> Next(c) == (false, d))
      && (OptionLooking(e) && e[1] != '-' ==> Next(c) == (true, d.(subidx := 1, curopt := e[..2])))
      && (OptionLooking(e) && e[1] == '-' && e != "--" ==> Next(c) == (true, d.(curopt := e)))
  {
    NextLeaving(c);
    ClassifyCases(c.(idx := c.idx + 1, subidx := 0, curopt := ""));
  }

  /** With reordering, the first option-looking element after the current
      one is brought next to it and classified: "--" is consumed and ends the
      options, anything else is reported. */
  lemma NextReorderFound(c: Cursor, f: nat)
    requires Valid(c) && c.reorder && c.idx + 1 < c.argc && Leaving(c)
    requires c.idx + 1 <= f < c.argc && OptionLooking(c.argv[f])
    requires forall k :: c.idx + 1 <= k < f ==> !OptionLooking(c.argv[k])
    ensures var e := c.argv[f]; var r := Next(c);
      && r.1.argv[c.idx + 1] == e
      && (e == "--" ==> !r.0 && r.1.idx == c.idx + 2)
      && (e != "--" ==> r.0 && r.1.idx == c.idx + 1 && r.1.curopt == if e[1] != '-' then e[..2] else e)
  {
    var e := c.argv[f];
    var d := c.(idx := c.idx + 1, subidx := 0, curopt := "");
    NextLeaving(c);
    var d2 := ReorderOpt(d);
    assert Next(c) == Classify(d2);
    ReorderOptFound(d, f);
    assert d2.argv[d2.idx] == e && d2.idx == c.idx + 1;
    ClassifyCases(d2);
  }

  /** With reordering and no option-looking element left, scanning ends at
      the next element, which is not consumed, and the array is unchanged. */
  lemma NextReorderNone(c: Cursor)
    requires Valid(c) && c.reorder && c.idx + 1 < c.argc && Leaving(c)
    requires forall k :: c.idx + 1 <= k < c.argc ==> !OptionLooking(c.argv[k])
    ensures Next(c) == (false, c.(idx := c.idx + 1, subidx := 0, argidx := 0, curopt := ""))
  {
    NextLeaving(c);
    ReorderOptNone(c.(idx := c.idx + 1, subidx := 0, curopt := ""));
  }

  /** In reorder mode scanning stops either right after a consumed "--" or
      where only non-options remain. */
  lemma ReorderStopsAtPositionals(c: Cursor)
    requires Valid(c) && c.reorder
    ensures var r := Next(c);
      !r.0 ==>
        || (0 < r.1.idx && r.1.argv[r.1.idx - 1] == "--")
        || (forall k :: r.1.idx <= k < r.1.argc ==> !OptionLooking(r.1.argv[k]))
  {
    if c.idx >= c.argc {
      NextWhenDone(c);
    } else if !Leaving(c) {
      NextInGroup(c);
    } else if c.idx + 1 >= c.argc {
      NextLeaving(c);
    } else {
      var d := c.(idx := c.idx + 1, subidx := 0, curopt := "");
      var f := FindOption(d.argv, d.idx, d.argc);
      FindOptionSkips(d.argv, d.idx, d.argc);
      if f < d.argc {
        NextReorderFound(c, f);
      } else {
        NextReorderNone(c);
      }
    }
  }

  /** The larger of the two parts of the scan's progress measure. */
  function Remaining(c: Cursor): nat
    requires Valid(c)
  {
    if c.idx < c.argc then |c.argv[c.idx]| - c.subidx else 0
  }

  /** Each call that reports an option moves on to a later element or to a
      later character of the same element, so a `copt_next` loop ends. */
  lemma NextProgress(c: Cursor)
    requires Valid(c) && Next(c).0
    ensures var d := Next(c).1;
      c.idx < d.idx || (c.idx == d.idx && Remaining(d) < Remaining(c))
  {
  }

  /** Before `argc` every call moves on, whatever it returns: to a later
      element, or to a later character of the same element. Only the
      exhausted state is a fixed point. */
  lemma NextMoves(c: Cursor)
    requires Valid(c) && c.idx < c.argc
    ensures var d := Next(c).1;
      c.idx < d.idx || (c.idx == d.idx && c.subidx < d.subidx)
  {
    if Leaving(c) {
      NextLeaving(c);
    } else {
      NextInGroup(c);
    }
  }

  /** `copt_next` forgets the previous current option before anything else. */
  lemma NextIgnoresCurOpt(c: Cursor, x: string)
    requires Valid(c) && (x == "" || OptionLooking(x))
    ensures Next(c.(curopt := x)) == Next(c)
  {
    assert c.(curopt := x).(curopt := "") == c.(curopt := "");
  }

  /** Nor does the loop of `copt_next` calls depend on it. */
  lemma OptionsIgnoresCurOpt(c: Cursor, x: string)
    requires Valid(c) && (x == "" || OptionLooking(x))
    ensures Options(c.(curopt := x)) == Options(c)
  {
    NextIgnoresCurOpt(c, x);
  }

  /** The options reported by `while (copt_next(&opt))` when no value is
      asked for, and the cursor the loop ends with. */
  function Options(c: Cursor): (r: (seq<string>, Cursor))
    requires Valid(c)
    ensures Valid(r.1) && r.1.curopt == "" && c.idx <= r.1.idx
    ensures |r.1.argv| == |c.argv|
    decreases c.argc - c.idx, Remaining(c)
  {
    var (more, d) := Next(c);
    if !more then ([], d)
    else
      NextProgress(c);
      var (rest, last) := Options(d);
      ([d.curopt] + rest, last)
  }

  /** Every option the loop reports looks like an option. */
  lemma {:induction false} OptionsLookLikeOptions(c: Cursor)
    requires Valid(c)
    ensures forall j :: 0 <= j < |Options(c).0| ==> OptionLooking(Options(c).0[j])
    decreases c.argc - c.idx, Remaining(c)
  {
    var (more, d) := Next(c);
    if more {
      NextProgress(c);
      OptionsLookLikeOptions(d);
      var all, rest := Options(c).0, Options(d).0;
      assert all == [d.curopt] + rest;
      forall j | 0 < j < |all| ensures OptionLooking(all[j]) {
        assert all[j] == rest[j - 1];
      }
    }
  }

  /** One reported option, then the rest of the scan. */
  lemma OptionsStep(c: Cursor)
    requires Valid(c) && Next(c).0
    ensures Options(c).0 == [Next(c).1.curopt] + Options(Next(c).1).0
    ensures Options(c).1 == Options(Next(c).1).1
  {
  }

  /** The "-c" options of the characters of `s` from `from` on. */
  function ShortOpts(s: string, from: nat): (r: seq<string>)
    requires from <= |s|
    decreases |s| - from
  {
    if from == |s| then [] else [['-', s[from]]] + ShortOpts(s, from + 1)
  }

  /** The cursor at the last character of the group at `c`, with no current
      option: where the scan goes on once the group is reported. */
  function GroupEnd(c: Cursor): (e: Cursor)
    requires Valid(c) && c.idx < c.argc && c.subidx > 0
    ensures Valid(e) && e.idx == c.idx && e.subidx + 1 == |c.argv[c.idx]|
  {
    c.(subidx := |c.argv[c.idx]| - 1, curopt := "")
  }

  /** The cursor after one step inside a group. */
  function GroupAdvance(c: Cursor): (d: Cursor)
    requires Valid(c) && c.idx < c.argc && c.subidx > 0 && !Leaving(c)
    ensures Valid(d) && d.idx == c.idx && d.subidx == c.subidx + 1 && GroupEnd(d) == GroupEnd(c)
  {
    c.(subidx := c.subidx + 1, curopt := ['-', c.argv[c.idx][c.subidx + 1]])
  }

  /** Inside a group, the next option reported is the next character. */
  lemma GroupNext(c: Cursor)
    requires Valid(c) && c.idx < c.argc && c.subidx > 0 && !Leaving(c)
    ensures Options(c).0 == [['-', c.argv[c.idx][c.subidx + 1]]] + Options(GroupAdvance(c)).0
    ensures Options(c).1 == Options(GroupAdvance(c)).1
  {
    NextInGroup(c);
    assert Next(c).1 == GroupAdvance(c);
    OptionsStep(c);
  }

  /** Regrouping the reported options of one step inside a group. */
  lemma GroupRegroup(s: string, i: nat, all: seq<string>, rest: seq<string>, tail: seq<string>)
    requires i + 1 < |s|
    requires all == [['-', s[i + 1]]] + rest && rest == ShortOpts(s, i + 2) + tail
    ensures all == ShortOpts(s, i + 1) + tail
  {
    assert ShortOpts(s, i + 1) == [['-', s[i + 1]]] + ShortOpts(s, i + 2);
  }

  /** At the group's last character the scan goes on as from the group's end. */
  lemma GroupLast(c: Cursor)
    requires Valid(c) && c.idx < c.argc && c.subidx > 0 && c.subidx + 1 == |c.argv[c.idx]|
    ensures Options(c) == Options(GroupEnd(c))
  {
    assert GroupEnd(c) == c.(curopt := "");
    OptionsIgnoresCurOpt(c, "");
  }

  /** No characters are left after the last one. */
  lemma GroupNoneLeft(s: string, i: nat, all: seq<string>, tail: seq<string>)
    requires i == |s| && all == tail
    ensures all == ShortOpts(s, i) + tail
  {
    assert ShortOpts(s, i) == [];
  }

  /** One step of `GroupEmits`: if the group reports its characters from the
      next one on, it reports them from the current one on. */
  lemma GroupEmitsStep(c: Cursor, e: Cursor)
    requires Valid(c) && c.idx < c.argc && c.subidx > 0 && !Leaving(c) && e == GroupEnd(c)
    requires Options(GroupAdvance(c)).0 == ShortOpts(c.argv[c.idx], c.subidx + 2) + Options(e).0
    requires Options(GroupAdvance(c)).1 == Options(e).1
    ensures Options(c).0 == ShortOpts(c.argv[c.idx], c.subidx + 1) + Options(e).0
    ensures Options(c).1 == Options(e).1
  {
    GroupNext(c);
    GroupRegroup(c.argv[c.idx], c.subidx, Options(c).0, Options(GroupAdvance(c)).0, Options(e).0);
  }

  /** A group reports each of its remaining characters in order, then the
      scan goes on as from the group's last character `e`. */
  lemma {:induction false} GroupEmits(c: Cursor, e: Cursor)
    requires Valid(c) && c.idx < c.argc && c.subidx > 0 && e == GroupEnd(c)
    ensures Options(c).0 == ShortOpts(c.argv[c.idx], c.subidx + 1) + Options(e).0
    ensures Options(c).1 == Options(e).1
    decreases |c.argv[c.idx]| - c.subidx
  {
    if Leaving(c) {
      GroupLast(c);
      GroupNoneLeft(c.argv[c.idx], c.subidx + 1, Options(c).0, Options(e).0);
    } else {
      GroupEmits(GroupAdvance(c), e);
      GroupEmitsStep(c, e);
    }
  }

  // ---------------------------------------------------------------------
  // Values (`copt_arg_impl`, `copt_arg`, `copt_oarg`)
  // ---------------------------------------------------------------------

  /** The current option has no value in its own element: a group at its
      last character, or an element without '='. */
  ghost predicate NoAttached(c: Cursor)
    requires Valid(c) && c.idx < c.argc
  {
    if c.subidx > 0 then c.subidx + 1 == |c.argv[c.idx]| else '=' !in c.argv[c.idx]
  }

  /** A short option followed by more characters takes them as its value, less
      one leading '=', and closes the group without consuming an element. */
  lemma ArgAttachedShort(c: Cursor, optional: bool)
    requires Valid(c) && c.idx < c.argc && 0 < c.subidx && c.subidx + 1 < |c.argv[c.idx]|
    ensures var rest := c.argv[c.idx][c.subidx + 1..];
      Arg(c, optional) == (Value(if rest[0] == '=' then rest[1..] else rest), c.(subidx := 0, argidx := 0))
  {
  }

  /** An element holding '=' (outside a group) has as value everything after
      its first '='; nothing is consumed. */
  lemma ArgAttachedLong(c: Cursor, optional: bool)
    requires Valid(c) && c.idx < c.argc && c.subidx == 0 && '=' in c.argv[c.idx]
    ensures var r := Arg(c, optional); var s := c.argv[c.idx];
      && r.1 == c.(argidx := 0)
      && r.0.Value?
      && exists name :: s == name + "=" + r.0.text && '=' !in name
  {
    var s := c.argv[c.idx];
    var k := Find(s, '=', 0);
    FindSkips(s, '=', 0);
    assert s == s[..k] + "=" + s[k + 1..];
  }

  /** The optional form never looks past the current element. */
  lemma ArgOptionalAbsent(c: Cursor)
    requires Valid(c) && c.idx < c.argc && NoAttached(c)
    ensures Arg(c, true) == (Absent, c.(subidx := 0, argidx := 0))
  {
  }

  /** Without reordering, the required form takes the next element unless it
      is missing or looks like an option (a lone "-" is taken). */
  lemma ArgDetachedPlain(c: Cursor)
    requires Valid(c) && !c.reorder && c.idx < c.argc && NoAttached(c)
    ensures Arg(c, false) ==
      if c.idx + 1 < c.argc && !OptionLooking(c.argv[c.idx + 1])
      then (Value(c.argv[c.idx + 1]), c.(idx := c.idx + 1, subidx := 0))
      else (Missing, c.(subidx := 0))
  {
  }

  /** With reordering, a pending value slot is pulled next to its option and
      consumed as the value; with no slot the value is missing. */
  lemma ArgDetachedReordered(c: Cursor)
    requires Valid(c) && c.reorder && c.idx < c.argc && NoAttached(c)
    ensures c.idx < c.argidx < c.argc ==>
      var r := Arg(c, false);
      && r.0 == Value(c.argv[c.argidx])
      && r.1.idx == c.idx + 1
      && r.1.argv == Rotate.RotatedRight(c.argv, c.idx + 1, c.argidx - c.idx)
    ensures c.argidx == c.argc ==> Arg(c, false) == (Missing, c.(subidx := 0, argidx := 0))
  {
  }

  /** What each outcome means: consuming an element yields that element, never
      option-looking, and only in the required form; absent and missing are
      reported only when the element holds no value. */
  lemma ArgOutcomes(c: Cursor, optional: bool)
    requires Valid(c) && c.idx < c.argc
    ensures var r := Arg(c, optional);
      && (r.1.idx == c.idx + 1 ==> !optional && r.0 == Value(r.1.argv[r.1.idx]) && !OptionLooking(r.1.argv[r.1.idx]))
      && (r.0 == Missing ==> !optional && NoAttached(c))
      && (r.0 == Absent ==> optional && NoAttached(c))
  {
    FindSkips(c.argv[c.idx], '=', 0);
  }

  /** `copt_arg_impl` moves only slots after the current element and before
      `argc`, and moves nothing outside reorder mode. */
  lemma ArgFrame(c: Cursor, optional: bool)
    requires Valid(c) && c.idx < c.argc
    ensures var r := Arg(c, optional).1;
      && (forall k :: 0 <= k < |c.argv| && (k <= c.idx || c.argc <= k) ==> r.argv[k] == c.argv[k])
      && (!c.reorder ==> r.argv == c.argv)
  {
  }

  /** `copt_arg_impl` loses no element and invents none. */
  lemma ArgPermutes(c: Cursor, optional: bool)
    requires Valid(c) && c.idx < c.argc
    ensures multiset(Arg(c, optional).1.argv) == multiset(c.argv)
  {
    var a := Arg(c, optional).1.argv;
    if a != c.argv {
      assert a == Rotate.RotatedRight(c.argv, c.idx + 1, c.argidx - c.idx);
      Rotate.RotatedRightPermutes(c.argv, c.idx + 1, c.argidx - c.idx);
    }
  }

  /** Pulling a value forward moves it over non-options only, so the options
      keep their order. */
  lemma ArgKeepsOptionOrder(c: Cursor, optional: bool)
    requires Valid(c) && c.idx < c.argc
    ensures Keep(Arg(c, optional).1.argv, true) == Keep(c.argv, true)
  {
    var a := Arg(c, optional).1.argv;
    if a != c.argv {
      assert a == Rotate.RotatedRight(c.argv, c.idx + 1, c.argidx - c.idx);
      KeepRotated(c.argv, c.idx + 1, c.argidx - c.idx, true);
    }
  }
}
