/** The `struct copt` context and the functions of copt.c that update it in
    place. Every method follows the C code statement by statement and is
    proved to compute what the `Scan` model says; the properties of that
    model are proved in `ScanProps`. */
module Copt {
  import opened CStr
  import Scan
  import ScanProps
  import Rotate

  class Parser {
    /** The argument array given to `copt_init`; the reorderer permutes it. */
    const argv: array<CString>
    const argc: nat
    const reorder: bool
    var idx: nat
    var subidx: nat
    var argidx: nat
    /** The current option; "" stands for NULL. */
    var curopt: string
    /** The array as it was handed over, before any reordering. */
    ghost const initial: seq<CString>

    /** The context as a value of the model. */
    function State(): (c: Scan.Cursor)
      reads this, argv
      ensures c.argv == argv[..] && c.argc == argc && c.idx == idx && c.subidx == subidx
      ensures c.argidx == argidx && c.curopt == curopt && c.reorder == reorder
    {
      Scan.Cursor(argv[..], argc, idx, subidx, argidx, curopt, reorder)
    }

    /** The model's invariant holds, the array holds the elements it was
        given, and without reordering it is exactly as it was given. */
    ghost predicate Valid()
      reads this, argv
    {
      && Scan.Valid(State())
      && multiset(argv[..]) == multiset(initial)
      && (!reorder ==> argv[..] == initial)
    }

    /** `copt_init`. */
    constructor (argc: nat, argv: array<CString>, reorder: bool)
      requires argc <= argv.Length
      ensures Valid() && this.argv == argv && initial == argv[..]
      ensures State() == Scan.Init(argv[..], argc, reorder)
    {
      this.argv := argv;
      this.argc := argc;
      this.reorder := reorder;
      idx, subidx, argidx := 0, 0, 0;
      curopt := "";
      initial := argv[..];
    }

    /** `copt_idx`. */
    function Idx(): (r: nat)
      reads this, argv
      requires Valid()
      ensures r <= argc && r <= argv.Length
    {
      idx
    }

    /** `copt_curopt`: NULL ("") or an option-looking text. */
    function CurOpt(): (r: string)
      reads this, argv
      requires Valid()
      ensures r == "" || OptionLooking(r)
    {
      curopt
    }

    /** The search loop of `copt_reorder_opt`: the first option-looking
        element at or after `idx`, or `argc`. */
    method FindOptionFrom() returns (i: nat)
      requires Scan.Valid(State())
      ensures i == Scan.FindOption(argv[..], idx, argc)
    {
      i := idx;
      while i < argc && !(At(argv[i], 0) == '-' && At(argv[i], 1) != NUL)
        invariant idx <= i <= argc
        invariant Scan.FindOption(argv[..], idx, argc) == Scan.FindOption(argv[..], i, argc)
        decreases argc - i
      {
        i := i + 1;
      }
    }

    /** `copt_reorder_opt`: search for the next option-looking element, rotate
        it down to `idx` and note where its detached value may be. */
    method ReorderOpt()
      requires Scan.Valid(State()) && reorder && idx < argc && subidx == 0
      modifies this`argidx, argv
      ensures State() == Scan.ReorderOpt(old(State()))
      ensures multiset(argv[..]) == multiset(old(argv[..]))
    {
      ghost var c := State();
      argidx := 0;
      var i := FindOptionFrom();
      if i < argc {
        OptionTest(argv[i]);
      }
      if i >= argc || At(argv[i], 0) != '-' || At(argv[i], 1) == NUL {
        ScanProps.ReorderOptSkip(c);
        return;
      }
      ScanProps.ReorderOptFinds(c, i);
      i := i + 1;
      MoveOption(i);
    }

    /** The end of `copt_reorder_opt` once the option is found just before
        `i`: rotate it down and note the value slot. */
    method MoveOption(i: nat)
      requires Scan.Valid(State()) && reorder && idx < argc && subidx == 0
      requires i == Scan.FindOption(argv[..], idx, argc) + 1 && i <= argc
      modifies this`argidx, argv
      ensures State() == Scan.MoveOption(old(State()), i - 1)
      ensures multiset(argv[..]) == multiset(old(argv[..]))
    {
      ghost var c := State();
      Rotate.RotateRight(argv, idx, i - idx);
      ghost var a := argv[..];
      if i < argc {
        OptionTest(argv[i]);
      }
      if i >= argc || At(argv[i], 0) != '-' || At(argv[i], 1) == NUL {
        argidx := i;
      } else {
        argidx := argc;
      }
      ScanProps.MoveOptionSteps(c, i - 1, a, argidx);
      Rotate.RotatedRightPermutes(c.argv, c.idx, i - c.idx);
    }

    /** `copt_next`: advance to the next option; true while one is current. */
    method Next() returns (more: bool)
      requires Valid()
      modifies this, argv
      ensures Valid()
      ensures (more, State()) == Scan.Next(old(State()))
    {
      curopt := "";
      more := Advance();
    }

    /** `copt_next` once the current option is NULL: the next character of a
        group, or the next element. */
    method Advance() returns (more: bool)
      requires Scan.Valid(State()) && curopt == ""
      modifies this, argv
      ensures (more, State()) == Scan.Advance(old(State()))
      ensures multiset(argv[..]) == multiset(old(argv[..]))
      ensures !reorder ==> argv[..] == old(argv[..])
    {
      ghost var c := State();
      if idx >= argc {
        return false;
      }
      if subidx > 0 {
        subidx := subidx + 1;
        var so := At(argv[idx], subidx);
        if so != NUL {
          curopt := Scan.ShortOpt(so);
          ScanProps.AdvanceInGroup(c);
          return true;
        }
        subidx := 0;
      }
      idx := idx + 1;
      ghost var d := State();
      assert d == c.(idx := c.idx + 1, subidx := 0);
      ScanProps.AdvanceLeaving(c);
      more := Enter();
      assert (more, State()) == Scan.Enter(d);
    }

    /** The rest of `copt_next` once it has left the previous element: stop
        at the end, let the reorderer run, classify the element at `idx`. */
    method Enter() returns (more: bool)
      requires Scan.Valid(State()) && subidx == 0 && curopt == ""
      modifies this, argv
      ensures (more, State()) == Scan.Enter(old(State()))
      ensures multiset(argv[..]) == multiset(old(argv[..]))
      ensures !reorder ==> argv[..] == old(argv[..])
    {
      if idx >= argc {
        return false;
      }
      if reorder {
        ReorderOpt();
      }
      more := Classify();
    }

    /** The classification at the end of `copt_next`. */
    method Classify() returns (more: bool)
      requires Scan.Valid(State()) && idx < argc && subidx == 0 && curopt == ""
      modifies this
      ensures (more, State()) == Scan.Classify(old(State()))
    {
      var s := argv[idx];
      if s == "--" {
        idx := idx + 1;
        return false;
      }
      if At(s, 0) != '-' {
        return false;
      }
      if At(s, 1) == NUL {
        return false;
      }
      if s[1] != '-' {
        subidx := 1;
        curopt := Scan.ShortOpt(s[1]);
      } else {
        subidx := 0;
        curopt := s;
      }
      return true;
    }

    /** `copt_opt`: does the current option's text equal one of the
        '|'-separated alternatives of `spec`? */
    method Opt(spec: CString) returns (r: bool)
      requires Valid() && idx < argc && OptionLooking(argv[idx])
      ensures r == Scan.Opt(State(), spec)
      ensures r <==> ScanProps.IsField(spec, Scan.OptText(argv[idx], subidx))
    {
      var arg := argv[idx];
      var from, len := 2, |arg| - 2;
      if subidx > 0 {
        from, len := subidx, 1;
      }
      var eq := Find(arg, '=', from);
      if eq < |arg| && eq - from < len {
        len := eq - from;
      }
      var text := arg[from .. from + len];
      assert text == Scan.OptText(arg, subidx);
      ScanProps.OptIsExact(State(), spec);
      r := SearchSpec(spec, text);
    }

    /** `copt_arg_impl` (`copt_arg` when `optional` is false, `copt_oarg`
        when it is true): the current option's value. */
    method Arg(optional: bool) returns (v: Scan.ArgResult)
      requires Valid() && idx < argc
      modifies this, argv
      ensures Valid()
      ensures (v, State()) == Scan.Arg(old(State()), optional)
    {
      ghost var c := State();
      var sub, pending := subidx, argidx;
      subidx, argidx := 0, 0;
      var s := argv[idx];
      if sub > 0 {
        var ch := At(s, sub + 1);
        if ch != NUL {
          return Scan.Value(s[sub + 1 + (if ch == '=' then 1 else 0)..]);
        }
      } else {
        var eq := Find(s, '=', 0);
        if eq < |s| {
          return Scan.Value(s[eq + 1..]);
        }
      }
      if optional {
        return Scan.Absent;
      }
      assert Scan.Arg(c, optional) == Scan.TakeNext(State(), pending);
      v := TakeNext(pending);
    }

    /** The end of `copt_arg_impl` for a value in the next element: `pending`
        is the value slot the reorderer noted, or `argc`. */
    method TakeNext(pending: nat) returns (v: Scan.ArgResult)
      requires Scan.Valid(State()) && idx < argc && subidx == 0 && argidx == 0 && pending <= argc
      requires !reorder ==> pending == 0
      modifies this, argv
      ensures (v, State()) == Scan.TakeNext(old(State()), pending)
      ensures multiset(argv[..]) == multiset(old(argv[..]))
      ensures !reorder ==> argv[..] == old(argv[..])
    {
      ghost var c := State();
      if pending >= argc {
        return Scan.Missing;
      }
      if pending > idx {
        Rotate.RotateRight(argv, idx + 1, pending - idx);
        Rotate.RotatedRightPermutes(c.argv, idx + 1, pending - idx);
      }
      if idx + 1 >= argc || (At(argv[idx + 1], 0) == '-' && At(argv[idx + 1], 1) != NUL) {
        return Scan.Missing;
      }
      idx := idx + 1;
      return Scan.Value(argv[idx]);
    }
  }

  /** The search loop of `copt_opt`: walk the '|'-separated pieces of `spec`
      and compare each with `text`; the walk ends at the end of the spec. */
  method SearchSpec(spec: string, text: string) returns (found: bool)
    ensures found <==> Scan.Listed(spec, 0, text)
  {
    var start := 0;
    while start < |spec|
      invariant start <= |spec|
      invariant Scan.Listed(spec, 0, text) <==> Scan.Listed(spec, start, text)
      decreases |spec| - start
    {
      var end := Find(spec, '|', start);
      ScanProps.PieceIsSlice(spec, start);
      if end - start == |text| && spec[start..end] == text {
        return true;
      }
      start := end + (if end < |spec| then 1 else 0);
    }
    return false;
  }
}
