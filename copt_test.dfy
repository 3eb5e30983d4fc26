/** The scenarios of copt-test.c and of the usage notes in copt.c and
    copt.h, stated as lemmas about the model. The test program counts its
    terminating NULL in `argc`; here `argc` is the number of real arguments. */
module CoptExamples {
  import opened CStr
  import opened Scan
  import opened ScanProps

  /** No arguments: no options, nothing left. */
  lemma NoArguments()
    ensures Options(Init(["testprog"], 1, false)).0 == []
    ensures Options(Init(["testprog"], 1, false)).1.idx == 1
  {
  }

  /** Positionals only: no options; they all remain. */
  lemma Positionals1()
    ensures Options(Init(["testprog", "arg1"], 2, false)).0 == []
    ensures Options(Init(["testprog", "arg1"], 2, false)).1.idx == 1
  {
  }

  /** Positionals only: no options; they all remain. */
  lemma Positionals2()
    ensures Options(Init(["testprog", "arg1", "arg2"], 3, false)).0 == []
    ensures Options(Init(["testprog", "arg1", "arg2"], 3, false)).1.idx == 1
  {
  }

  /** Separate short options. */
  lemma ShortOption1()
    ensures Options(Init(["testprog", "-x"], 2, false)).0 == ["-x"]
    ensures Options(Init(["testprog", "-x"], 2, false)).1.idx == 2
  {
  }

  /** Separate short options. */
  lemma ShortOption2(argv: seq<CString>)
    requires argv == ["testprog", "-x", "-y"]
    ensures Options(Init(argv, 3, false)).0 == ["-x", "-y"]
    ensures Options(Init(argv, 3, false)).1.idx == 3
  {
    var c := Init(argv, 3, false);
    var d := Cursor(argv, 3, 1, 1, 0, "-x", false);
    var e := Cursor(argv, 3, 2, 1, 0, "-y", false);
    NextPlain(c);
    assert argv[1][..2] == "-x";
    OptionsStep(c);
    NextPlain(d);
    assert argv[2][..2] == "-y";
    OptionsStep(d);
    NextLeaving(e);
  }

  /** Grouped short options report each character in order. */
  lemma Group1(argv: seq<CString>)
    requires argv == ["testprog", "-xyz"]
    ensures Options(Init(argv, 2, false)).0 == ["-x", "-y", "-z"]
    ensures Options(Init(argv, 2, false)).1.idx == 2
  {
    var c := Init(argv, 2, false);
    var d := Cursor(argv, 2, 1, 1, 0, "-x", false);
    NextPlain(c);
    assert argv[1][..2] == "-x";
    OptionsStep(c);
    var e := GroupEnd(d);
    GroupEmits(d, e);
    assert ShortOpts(argv[1], 2) == ["-y", "-z"];
    NextLeaving(e);
  }

  /** Grouped short options report each character in order. */
  lemma Group2(argv: seq<CString>)
    requires argv == ["testprog", "-xyzzy"]
    ensures Options(Init(argv, 2, false)).0 == ["-x", "-y", "-z", "-z", "-y"]
    ensures Options(Init(argv, 2, false)).1.idx == 2
  {
    var c := Init(argv, 2, false);
    var d := Cursor(argv, 2, 1, 1, 0, "-x", false);
    NextPlain(c);
    assert argv[1][..2] == "-x";
    OptionsStep(c);
    var e := GroupEnd(d);
    GroupEmits(d, e);
    assert ShortOpts(argv[1], 2) == ["-y", "-z", "-z", "-y"];
    NextLeaving(e);
  }

  /** Without reordering the scan stops at the first positional. */
  lemma StopsAtPositional()
    ensures Options(Init(["testprog", "-x", "nonopt", "-y"], 4, false)).0 == ["-x"]
    ensures Options(Init(["testprog", "-x", "nonopt", "-y"], 4, false)).1.idx == 2
  {
  }

  /** "--" ends the options and is consumed; what follows is positional. */
  lemma Terminator1()
    ensures Options(Init(["testprog", "-y", "--", "-x"], 4, false)).0 == ["-y"]
    ensures Options(Init(["testprog", "-y", "--", "-x"], 4, false)).1.idx == 3
  {
  }

  /** "--" ends the options and is consumed; what follows is positional. */
  lemma Terminator2()
    ensures Options(Init(["testprog", "-z", "--", "-y", "nonopt1", "nonopt2"], 6, false)).0 == ["-z"]
    ensures Options(Init(["testprog", "-z", "--", "-y", "nonopt1", "nonopt2"], 6, false)).1.idx == 3
  {
  }

  /** A lone "-" is a positional. */
  lemma LoneDash()
    ensures Options(Init(["testprog", "-x", "-", "nonopt1", "nonopt2"], 5, false)).0 == ["-x"]
    ensures Options(Init(["testprog", "-x", "-", "nonopt1", "nonopt2"], 5, false)).1.idx == 2
  {
  }

  /** An unknown option is current as "-q" (copt-test.c expects "q"). */
  lemma UnknownOption()
    ensures Options(Init(["testprog", "-q"], 2, false)).0 == ["-q"]
    ensures Options(Init(["testprog", "-q"], 2, false)).1.idx == 2
  {
  }

  /** Calling `copt_next` again after it returned false at a positional moves
      past that positional and goes on scanning: false is final only once
      `idx` has reached `argc`. */
  lemma ResumesAfterPositional()
    ensures var c := Init(["testprog", "pos", "-x"], 3, false);
      && Next(c) == (false, c.(idx := 1))
      && Next(Next(c).1) == (true, c.(idx := 2, subidx := 1, curopt := "-x"))
  {
  }

  /** The pieces of "F|f|foo" are exactly "F", "f" and "foo". */
  lemma FooListed(t: string)
    ensures Listed("F|f|foo", 0, t) <==> t == "F" || t == "f" || t == "foo"
  {
    var spec := "F|f|foo";
    assert Find(spec, '|', 0) == 1 && Piece(spec, 0) == "F";
    assert Find(spec, '|', 2) == 3 && Piece(spec, 2) == "f";
    assert Find(spec, '|', 4) == 7 && Piece(spec, 4) == "foo";
  }

  /** "F|f|foo" matches -F. */
  lemma MatchF()
    ensures Opt(Cursor(["p", "-F"], 2, 1, 1, 0, "-F", false), "F|f|foo")
  {
    assert OptText("-F", 1) == "F";
    FooListed("F");
  }

  /** "F|f|foo" matches the f of a group -xf. */
  lemma MatchGroupF()
    ensures Opt(Cursor(["p", "-xf"], 2, 1, 2, 0, "-f", false), "F|f|foo")
  {
    assert OptText("-xf", 2) == "f";
    FooListed("f");
  }

  /** "F|f|foo" does not match -o. */
  lemma NoMatchO()
    ensures !Opt(Cursor(["p", "-o"], 2, 1, 1, 0, "-o", false), "F|f|foo")
  {
    assert OptText("-o", 1) == "o";
    FooListed("o");
  }

  /** "F|f|foo" matches --foo. */
  lemma MatchFoo()
    ensures Opt(Cursor(["p", "--foo"], 2, 1, 0, 0, "--foo", false), "F|f|foo")
  {
    assert OptText("--foo", 0) == "foo";
    FooListed("foo");
  }

  /** "F|f|foo" matches --foo=bar: the name ends at the '='. */
  lemma MatchFooValue()
    ensures Opt(Cursor(["p", "--foo=bar"], 2, 1, 0, 0, "--foo=bar", false), "F|f|foo")
  {
    assert OptText("--foo=bar", 0) == "foo";
    FooListed("foo");
  }

  /** "F|f|foo" does not match the prefix --fo. */
  lemma NoMatchPrefix()
    ensures !Opt(Cursor(["p", "--fo"], 2, 1, 0, 0, "--fo", false), "F|f|foo")
  {
    assert OptText("--fo", 0) == "fo";
    FooListed("fo");
  }

  /** "F|f|foo" does not match the longer --foox. */
  lemma NoMatchLonger()
    ensures !Opt(Cursor(["p", "--foox"], 2, 1, 0, 0, "--foox", false), "F|f|foo")
  {
    assert OptText("--foox", 0) == "foox";
    FooListed("foox");
  }

  /** "F|f|foo" does not match --FOO: the comparison is exact. */
  lemma NoMatchCase()
    ensures !Opt(Cursor(["p", "--FOO"], 2, 1, 0, 0, "--FOO", false), "F|f|foo")
  {
    assert OptText("--FOO", 0) == "FOO";
    FooListed("FOO");
  }

  /** The pieces of "c|color=" are "c" and "color=". */
  lemma ColorListed(t: string)
    ensures Listed("c|color=", 0, t) <==> t == "c" || t == "color="
  {
    var spec := "c|color=";
    assert Find(spec, '|', 0) == 1 && Piece(spec, 0) == "c";
    assert Find(spec, '|', 2) == 8 && Piece(spec, 2) == "color=";
  }

  /** The usage note's spec "c|color=" is compared piece by piece as
      written: "--color=red" has the name "color", which is not "color=", so
      it does not match, while -c does. */
  lemma ColorSpecAsWritten()
    ensures !Opt(Cursor(["p", "--color=red"], 2, 1, 0, 0, "--color=red", false), "c|color=")
    ensures Opt(Cursor(["p", "-c"], 2, 1, 1, 0, "-c", false), "c|color=")
  {
    assert Find("--color=red", '=', 2) == 7;
    assert OptText("--color=red", 0) == "color";
    ColorListed("color");
    assert OptText("-c", 1) == "c";
    ColorListed("c");
  }

  /** A group character '=' compares as the empty text: no alternative after
      a trailing '|' matches it, the empty one inside "a||b" does. */
  lemma MatchEmptyPieces()
    ensures !Opt(Cursor(["p", "-x="], 2, 1, 2, 0, "-=", false), "a|")
    ensures Opt(Cursor(["p", "-x="], 2, 1, 2, 0, "-=", false), "a||b")
  {
    assert OptText("-x=", 2) == "";
  }

  /** `-s sarg` takes the next element as the value. */
  lemma ShortDetached()
    ensures Arg(Cursor(["p", "-s", "sarg"], 3, 1, 1, 0, "-s", false), false)
      == (Value("sarg"), Cursor(["p", "-s", "sarg"], 3, 2, 0, 0, "-s", false))
  {
  }

  /** `-ssarg` and `-s=sarg` give "sarg" from the element itself. */
  lemma ShortAttached()
    ensures Arg(Cursor(["p", "-ssarg"], 2, 1, 1, 0, "-s", false), false)
      == (Value("sarg"), Cursor(["p", "-ssarg"], 2, 1, 0, 0, "-s", false))
    ensures Arg(Cursor(["p", "-s=sarg"], 2, 1, 1, 0, "-s", false), false)
      == (Value("sarg"), Cursor(["p", "-s=sarg"], 2, 1, 0, 0, "-s", false))
  {
    assert "-ssarg"[2..] == "sarg";
    assert "-s=sarg"[3..] == "sarg";
  }

  /** `--long-with-arg=optarg` gives the text after the first '='. */
  lemma LongAttached()
    ensures Arg(Cursor(["p", "--long-with-arg=optarg"], 2, 1, 0, 0, "--long-with-arg=optarg", false), false).0
      == Value("optarg")
  {
    var s := "--long-with-arg=optarg";
    assert s[15] == '=' && forall j :: 0 <= j < 15 ==> s[j] != '=';
    assert Find(s, '=', 0) == 15;
    assert s[16..] == "optarg";
  }

  /** The value after the first '=' may hold more of them. */
  lemma LongAttachedEquals()
    ensures Arg(Cursor(["p", "--a=b=c"], 2, 1, 0, 0, "--a=b=c", false), false).0 == Value("b=c")
  {
    assert Find("--a=b=c", '=', 0) == 3;
    assert "--a=b=c"[4..] == "b=c";
  }

  /** An option-looking next element is no value, and neither is the end. */
  lemma DetachedMissing()
    ensures Arg(Cursor(["p", "-s", "-x"], 3, 1, 1, 0, "-s", false), false).0 == Missing
    ensures Arg(Cursor(["p", "-s"], 2, 1, 1, 0, "-s", false), false).0 == Missing
  {
  }

  /** A lone "-" is a value; the optional form never takes the next element. */
  lemma DetachedDashAndOptional()
    ensures Arg(Cursor(["p", "-s", "-"], 3, 1, 1, 0, "-s", false), false).0 == Value("-")
    ensures Arg(Cursor(["p", "-s", "sarg"], 3, 1, 1, 0, "-s", false), true).0 == Absent
  {
  }

  /** The argument vector of the reorder scenario, as it evolves. */
  const Given: seq<CString> := ["p", "pos1", "-x", "pos2", "-s", "val", "pos3"]
  const AfterX: seq<CString> := ["p", "-x", "pos1", "pos2", "-s", "val", "pos3"]
  const AfterS: seq<CString> := ["p", "-x", "-s", "pos1", "pos2", "val", "pos3"]
  const AfterVal: seq<CString> := ["p", "-x", "-s", "val", "pos1", "pos2", "pos3"]

  /** The first `copt_next` brings -x forward and notes pos2's slot. */
  lemma ReorderFirst()
    ensures Next(Init(Given, 7, true)) == (true, Cursor(AfterX, 7, 1, 1, 3, "-x", true))
  {
    var c := Init(Given, 7, true).(idx := 1);
    assert FindOption(Given, 1, 7) == 2;
    assert Rotate.RotatedRight(Given, 1, 2) == AfterX;
    assert ReorderOpt(c) == c.(argv := AfterX, argidx := 3);
  }

  /** The second brings -s forward over both positionals and notes val's slot. */
  lemma ReorderSecond()
    ensures Next(Cursor(AfterX, 7, 1, 1, 3, "-x", true)) == (true, Cursor(AfterS, 7, 2, 1, 5, "-s", true))
  {
    var c := Cursor(AfterX, 7, 2, 0, 3, "", true);
    assert FindOption(AfterX, 2, 7) == 4;
    assert Rotate.RotatedRight(AfterX, 2, 3) == AfterS;
    assert ReorderOpt(c) == c.(argv := AfterS, argidx := 5);
  }

  /** `copt_arg` pulls val down next to -s and takes it. */
  lemma ReorderValue()
    ensures Arg(Cursor(AfterS, 7, 2, 1, 5, "-s", true), false) == (Value("val"), Cursor(AfterVal, 7, 3, 0, 0, "-s", true))
  {
    assert Rotate.RotatedRight(AfterS, 3, 3) == AfterVal;
  }

  /** The last `copt_next` finds only positionals and stops at the first. */
  lemma ReorderLast()
    ensures Next(Cursor(AfterVal, 7, 3, 0, 0, "-s", true)) == (false, Cursor(AfterVal, 7, 4, 0, 0, "", true))
  {
    assert FindOption(AfterVal, 4, 7) == 7;
  }
}
