/** _getopt_data_a, exchange_a and _getopt_internal_r_a in the PERMUTE ordering. */
module Getopt {
  import opened Collections
  import opened GetoptSpec

  /** Where element k of the list comes from when the blocks [bottom..middle) and [middle..top) trade places. */
  function SwapSource(bottom: nat, middle: nat, top: nat, k: nat): (j: nat)
    requires bottom <= middle <= top
    ensures k < top ==> j < top
    ensures k >= top ==> j == k
  {
    if bottom <= k < bottom + (top - middle) then k - bottom + middle
    else if bottom + (top - middle) <= k < top then k - (top - middle)
    else k
  }

  /** Two neighbouring blocks in the opposite order. */
  ghost function Swapped(s: seq<string>, bottom: nat, middle: nat, top: nat): (r: seq<string>)
    requires bottom <= middle <= top <= |s|
    ensures |r| == |s|
  {
    seq(|s|, k requires 0 <= k < |s| => s[SwapSource(bottom, middle, top, k)])
  }

  function ExchangedAt(s: seq<string>, a: nat, b: nat, i: nat, k: nat): string
    requires a + i <= b && b + i <= |s| && k < |s|
  {
    if a <= k < a + i then s[k - a + b] else if b <= k < b + i then s[k - b + a] else s[k]
  }

  /** s with its ranges of i elements at a and b exchanged. */
  ghost function Exchanged(s: seq<string>, a: nat, b: nat, i: nat): (r: seq<string>)
    requires a + i <= b && b + i <= |s|
    ensures |r| == |s|
  {
    seq(|s|, k requires 0 <= k < |s| => ExchangedAt(s, a, b, i, k))
  }

  lemma ExchangedStep(s: seq<string>, a: nat, b: nat, i: nat)
    requires a + i < b && b + i < |s|
    ensures Exchanged(s, a, b, i)[a + i] == s[a + i] && Exchanged(s, a, b, i)[b + i] == s[b + i]
    ensures Exchanged(s, a, b, i)[a + i := s[b + i]][b + i := s[a + i]] == Exchanged(s, a, b, i + 1)
  {
    var x, y := Exchanged(s, a, b, i), Exchanged(s, a, b, i + 1);
    var z := x[a + i := s[b + i]][b + i := s[a + i]];
    forall k | 0 <= k < |s|
      ensures z[k] == y[k]
    {
      assert x[k] == ExchangedAt(s, a, b, i, k) && y[k] == ExchangedAt(s, a, b, i + 1, k);
    }
  }

  /** The inner loops of exchange_a: swap two ranges of `len` elements that do not overlap. */
  method SwapRanges(argv: array<string>, a: nat, b: nat, len: nat)
    requires a + len <= b && b + len <= argv.Length
    modifies argv
    ensures argv[..] == Exchanged(old(argv[..]), a, b, len)
  {
    ghost var s := argv[..];
    var i := 0;
    assert Exchanged(s, a, b, 0) == s by {
      assert forall k :: 0 <= k < |s| ==> Exchanged(s, a, b, 0)[k] == s[k];
    }
    hide Exchanged;
    while i < len
      invariant 0 <= i <= len
      invariant argv[..] == Exchanged(s, a, b, i)
    {
      ExchangedStep(s, a, b, i);
      ghost var t := argv[..];
      var tem := argv[a + i];
      argv[a + i] := argv[b + i];
      argv[b + i] := tem;
      assert argv[..] == t[a + i := s[b + i]][b + i := s[a + i]];
      i := i + 1;
    }
  }

  /** The loop of exchange_a rotates the two blocks, keeping the order within each. */
  method Rotate(argv: array<string>, bottom0: nat, middle: nat, top0: nat)
    requires bottom0 <= middle <= top0 <= argv.Length
    modifies argv
    ensures argv[..] == Swapped(old(argv[..]), bottom0, middle, top0)
  {
    hide Swapped, Exchanged;
    var bottom: nat, top: nat := bottom0, top0;
    ghost var target := Swapped(argv[..], bottom, middle, top);
    while top > middle && middle > bottom
      invariant bottom <= middle <= top <= argv.Length
      invariant Swapped(argv[..], bottom, middle, top) == target
      decreases top - bottom
    {
      ghost var s := argv[..];
      if top - middle > middle - bottom {
        var len := middle - bottom;
        SwapRanges(argv, bottom, top - len, len);
        ShortBottom(s, argv[..], bottom, middle, top, len);
        top := top - len;
      } else {
        var len := top - middle;
        SwapRanges(argv, bottom, middle, len);
        ShortTop(s, argv[..], bottom, middle, top, len);
        bottom := bottom + len;
      }
    }
    SwappedEmpty(argv[..], bottom, middle, top);
  }

  lemma SwappedEmpty(s: seq<string>, bottom: nat, middle: nat, top: nat)
    requires bottom <= middle <= top <= |s| && (bottom == middle || middle == top)
    ensures Swapped(s, bottom, middle, top) == s
  {
    forall k | 0 <= k < |s| ensures Swapped(s, bottom, middle, top)[k] == s[k] {
      assert SwapSource(bottom, middle, top, k) == k;
    }
  }

  lemma ShortBottom(s: seq<string>, t: seq<string>, bottom: nat, middle: nat, top: nat, len: nat)
    requires bottom <= middle <= top <= |s| && len == middle - bottom && middle + len <= top
    requires t == Exchanged(s, bottom, top - len, len)
    ensures Swapped(t, bottom, middle, top - len) == Swapped(s, bottom, middle, top)
  {
    var x, y := Swapped(t, bottom, middle, top - len), Swapped(s, bottom, middle, top);
    forall k | 0 <= k < |s|
      ensures x[k] == y[k]
    {
      var j := SwapSource(bottom, middle, top - len, k);
      assert x[k] == t[j] == ExchangedAt(s, bottom, top - len, len, j);
      assert y[k] == s[SwapSource(bottom, middle, top, k)];
    }
  }

  lemma ShortTop(s: seq<string>, t: seq<string>, bottom: nat, middle: nat, top: nat, len: nat)
    requires bottom <= middle <= top <= |s| && len == top - middle && bottom + len <= middle
    requires t == Exchanged(s, bottom, middle, len)
    ensures Swapped(t, bottom + len, middle, top) == Swapped(s, bottom, middle, top)
  {
    var x, y := Swapped(t, bottom + len, middle, top), Swapped(s, bottom, middle, top);
    forall k | 0 <= k < |s|
      ensures x[k] == y[k]
    {
      var j := SwapSource(bottom + len, middle, top, k);
      assert x[k] == t[j] == ExchangedAt(s, bottom, middle, len, j);
      assert y[k] == s[SwapSource(bottom, middle, top, k)];
    }
  }

  /** struct _getopt_data_a together with the arguments that every call repeats. */
  class Getopt {
    const argv: array<string>
    const env: Env
    var optind: nat
    var optarg: Option<string>
    var initialized: bool
    /** The unread part of the current element; None stands for NULL. */
    var nextchar: Option<string>
    var first_nonopt: nat
    var last_nonopt: nat

    constructor (args: array<string>, e: Env)
      ensures argv == args && env == e
      ensures Inv(args[..], [])
    {
      argv, env := args, e;
      optind, optarg, initialized, nextchar := 1, None, false, None;
      first_nonopt, last_nonopt := 0, 0;
      new;
      if argv.Length > 0 {
        assert argv[1..1] == [] && argv[..][1..] == argv[1..];
      }
    }

    ghost predicate Fresh() reads this`nextchar { nextchar.None? || nextchar.value == "" }

    /** What is still to come: the rest of the current element, then the elements behind it. */
    ghost function Remaining(o: nat): Plan
      requires o <= argv.Length
      requires !Fresh() ==> o < argv.Length
      reads this`nextchar, argv
    {
      if Fresh() then Walk(env, argv[o..]) else
        var args := argv[o..];
        var c := Cluster(env, nextchar.value, Next(args));
        After(env, args, c.0, c.1)
    }

    /**
     * The elements up to `o` are the options of the plan and its operands, with the block of operands
     * [f..l) standing inside the options; what is still to come completes the plan.
     */
    ghost predicate Progress(orig: seq<string>, done: seq<Event>, f: nat, l: nat, o: nat)
      reads this`nextchar, argv
    {
      && o <= argv.Length
      && (!Fresh() ==> o < argv.Length && !IsOperand(argv[o]) && !IsLong(env, argv[o]))
      && PlanIs(orig, done, f, l, o, Remaining(o))
    }

    ghost predicate PlanIs(orig: seq<string>, done: seq<Event>, f: nat, l: nat, o: nat, rem: Plan)
      reads argv
    {
      && |orig| == argv.Length > 0 && argv[0] == orig[0]
      && 1 <= f <= l <= o <= argv.Length
      && var plan := Walk(env, orig[1..]);
      && plan.events == done + rem.events
      && plan.opts == argv[1..f] + argv[l..o] + rem.opts
      && plan.operands == argv[f..l] + rem.operands
    }

    /** Holds between calls: `done` has been reported for the command line `orig`. */
    ghost predicate Inv(orig: seq<string>, done: seq<Event>)
      reads this, argv
    {
      && |orig| == argv.Length
      && (argv.Length > 0 ==>
            if initialized then Progress(orig, done, first_nonopt, last_nonopt, optind)
            else optind <= 1 && Fresh() && nextchar.None? && Progress(orig, done, 1, 1, 1))
    }

    /** All reported, all moved: options first, then the operands, each in their original order. */
    ghost predicate Finished(orig: seq<string>, done: seq<Event>)
      reads this, argv
    {
      && |orig| == argv.Length
      && (argv.Length > 0 ==>
            var plan := Walk(env, orig[1..]);
            && done == plan.events
            && argv[..] == orig[..1] + plan.opts + plan.operands
            && optind == 1 + |plan.opts|)
    }

    /** exchange_a */
    method Exchange(ghost orig: seq<string>, ghost done: seq<Event>)
      requires Fresh() && Progress(orig, done, first_nonopt, last_nonopt, optind)
      modifies argv, this`first_nonopt, this`last_nonopt
      ensures Progress(orig, done, first_nonopt, last_nonopt, optind)
      ensures first_nonopt == old(first_nonopt) + (optind - old(last_nonopt)) && last_nonopt == optind
      ensures argv[optind..] == old(argv[optind..])
    {
      hide Walk, Swapped;
      ghost var s := argv[..];
      Rotate(argv, first_nonopt, last_nonopt, optind);
      SwappedParts(s, first_nonopt, last_nonopt, optind, argv[..]);
      first_nonopt := first_nonopt + (optind - last_nonopt);
      last_nonopt := optind;
      assert argv[optind..optind] == [];
    }

    /** The scan of the PERMUTE ordering: move pending operands behind the options, then skip more operands. */
    method SkipOperands(ghost orig: seq<string>, ghost done: seq<Event>)
      requires Fresh() && Progress(orig, done, first_nonopt, last_nonopt, optind)
      modifies argv, this`first_nonopt, this`last_nonopt, this`optind
      ensures Progress(orig, done, first_nonopt, last_nonopt, optind) && last_nonopt == optind
      ensures optind < argv.Length ==> !IsOperand(argv[optind])
    {
      hide Walk, Swapped;
      if first_nonopt != last_nonopt && last_nonopt != optind {
        Exchange(orig, done);
      } else if last_nonopt != optind {
        JoinOptions(orig, done);
        first_nonopt := optind;
      }
      assert Progress(orig, done, first_nonopt, optind, optind) by { CloseGap(orig, done); }
      while optind < argv.Length && (|argv[optind]| < 2 || argv[optind][0] != '-')
        invariant Progress(orig, done, first_nonopt, optind, optind)
        decreases argv.Length - optind
      {
        SkipOne(orig, done, first_nonopt, optind);
        optind := optind + 1;
      }
      last_nonopt := optind;
    }

    lemma JoinOptions(orig: seq<string>, done: seq<Event>)
      requires Fresh() && Progress(orig, done, first_nonopt, last_nonopt, optind) && first_nonopt == last_nonopt
      ensures Progress(orig, done, optind, optind, optind)
    {
      hide Walk;
      assert argv[1..optind] == argv[1..first_nonopt] + argv[last_nonopt..optind];
      assert argv[first_nonopt..last_nonopt] == [] == argv[optind..optind];
    }

    lemma CloseGap(orig: seq<string>, done: seq<Event>)
      requires Fresh()
      requires (Progress(orig, done, first_nonopt, last_nonopt, optind) && last_nonopt == optind)
               || (Progress(orig, done, optind, optind, optind) && first_nonopt == optind)
      ensures Progress(orig, done, first_nonopt, optind, optind)
    {
      hide Walk;
    }

    lemma SkipOne(orig: seq<string>, done: seq<Event>, f: nat, o: nat)
      requires Fresh() && Progress(orig, done, f, o, o) && o < argv.Length && IsOperand(argv[o])
      ensures Progress(orig, done, f, o + 1, o + 1)
    {
      hide Walk, IsOperand;
      assert argv[o..][1..] == argv[o + 1..];
      OperandPlan(argv[o..]);
      assert argv[f..o + 1] == argv[f..o] + [argv[o]];
      assert argv[o..o] == [] == argv[o + 1..o + 1];
    }

    /** An operand at the front of the line is put first among the operands. */
    lemma OperandPlan(args: seq<string>)
      requires args != [] && IsOperand(args[0])
      ensures var rest := Walk(env, args[1..]);
              Walk(env, args) == Plan(rest.events, rest.opts, [args[0]] + rest.operands)
    {
      hide Element, After, Next;
      assert args[0] != "--" && args[..1] == [args[0]];
    }

    /** An element "--": everything behind it is an operand. */
    method TakeDashes(ghost orig: seq<string>, ghost done: seq<Event>)
      requires Fresh() && Progress(orig, done, first_nonopt, last_nonopt, optind) && last_nonopt == optind
      requires optind < argv.Length && argv[optind] == "--"
      modifies argv, this`first_nonopt, this`last_nonopt, this`optind
      ensures Progress(orig, done, first_nonopt, last_nonopt, optind) && last_nonopt == optind == argv.Length
    {
      hide Walk, Swapped;
      ghost var s := argv[..];
      ghost var f0, o0 := first_nonopt, optind;
      DashesPlan(orig, done);
      optind := optind + 1;
      if first_nonopt != last_nonopt && last_nonopt != optind {
        Rotate(argv, first_nonopt, last_nonopt, optind);
        SwappedParts(s, first_nonopt, last_nonopt, optind, argv[..]);
        first_nonopt := first_nonopt + (optind - last_nonopt);
        last_nonopt := optind;
      } else if first_nonopt == last_nonopt {
        first_nonopt := optind;
      }
      last_nonopt := argv.Length;
      optind := argv.Length;
      DashesDone(orig, done, s, f0, o0);
    }

    ghost predicate PlanAtDashes(orig: seq<string>, done: seq<Event>, s: seq<string>, f: nat, o: nat) {
      && |orig| == |s| > 0 && s[0] == orig[0] && 1 <= f <= o < |s|
      && var plan := Walk(env, orig[1..]);
      && plan.events == done
      && plan.opts == s[1..f] + s[o..o + 1]
      && plan.operands == s[f..o] + s[o + 1..]
    }

    lemma DashesPlan(orig: seq<string>, done: seq<Event>)
      requires Fresh() && Progress(orig, done, first_nonopt, last_nonopt, optind) && last_nonopt == optind
      requires optind < argv.Length && argv[optind] == "--"
      ensures PlanAtDashes(orig, done, argv[..], first_nonopt, optind)
    {
      var args, s := argv[optind..], argv[..];
      assert args[0] == "--" && args[..1] == s[optind..optind + 1] && args[1..] == s[optind + 1..];
      assert Walk(env, args) == Plan([], args[..1], args[1..]);
      assert argv[optind..optind] == [];
      assert argv[1..first_nonopt] == s[1..first_nonopt] && argv[first_nonopt..optind] == s[first_nonopt..optind];
      assert done + [] == done;
      hide Walk;
    }

    lemma DashesDone(orig: seq<string>, done: seq<Event>, s: seq<string>, f: nat, o: nat)
      requires Fresh() && PlanAtDashes(orig, done, s, f, o)
      requires first_nonopt == f + 1 && last_nonopt == optind == argv.Length == |s| && argv[0] == s[0]
      requires argv[..][1..f + 1] == s[1..f] + s[o..o + 1] && argv[..][f + 1..o + 1] == s[f..o] && argv[..][o + 1..] == s[o + 1..]
      ensures Progress(orig, done, first_nonopt, last_nonopt, optind)
    {
      var n := argv.Length;
      assert Walk(env, argv[n..]) == Plan([], [], []) by { assert argv[n..] == []; }
      hide Walk;
      assert argv[1..f + 1] == argv[..][1..f + 1];
      assert argv[f + 1..n] == argv[..][f + 1..o + 1] + argv[..][o + 1..];
      assert argv[n..n] == [];
    }

    // ----- options

    /** The last report of an element moves the cursor behind it and its argument. */
    lemma ElementDone(orig: seq<string>, done: seq<Event>, f: nat, l: nat, o: nat, ev: Event, took: bool)
      requires o < argv.Length && (took ==> o + 1 < argv.Length)
      requires PlanIs(orig, done, f, l, o, After(env, argv[o..], [ev], took))
      ensures var n := if took then 2 else 1; PlanIs(orig, done + [ev], f, l, o + n, Walk(env, argv[o + n..]))
    {
      hide Walk;
      var n := if took then 2 else 1;
      var args := argv[o..];
      assert args[n..] == argv[o + n..];
      assert args[..n] == argv[o..o + n];
      assert argv[l..o + n] == argv[l..o] + argv[o..o + n];
    }

    /** Any other report leaves the cursor on the element. */
    lemma ElementContinues(orig: seq<string>, done: seq<Event>, f: nat, l: nat, o: nat, ev: Event, events: seq<Event>, took: bool)
      requires o < argv.Length && (took ==> o + 1 < argv.Length)
      requires PlanIs(orig, done, f, l, o, After(env, argv[o..], [ev] + events, took))
      ensures PlanIs(orig, done + [ev], f, l, o, After(env, argv[o..], events, took))
    {
      hide Walk;
      var rest := Walk(env, argv[o..][if took then 2 else 1..]);
      assert done + ([ev] + events + rest.events) == done + [ev] + (events + rest.events);
    }

    /** The branch of _getopt_internal_r_a for a short option. */
    method TakeShort(ghost orig: seq<string>, ghost done: seq<Event>) returns (ev: Event)
      requires !Fresh() && Progress(orig, done, first_nonopt, last_nonopt, optind) && optarg.None?
      modifies this`optind, this`nextchar, this`optarg
      ensures Progress(orig, done + [ev], first_nonopt, last_nonopt, optind)
    {
      hide Walk, PlanIs, After, IsOperand, IsLong;
      ghost var o, args := optind, argv[optind..];
      var chars := nextchar.value;
      var c, rest := chars[0], chars[1..];
      ghost var t := ShortOption(env, c, rest, Next(args));
      ghost var more := if t.rest == "" then ([], t.took) else Cluster(env, t.rest, Next(args));
      ClusterStep(chars, Next(args));
      nextchar := Some(rest);
      if rest == "" {
        optind := optind + 1;
      }
      ev := ShortReport(c, rest);
      assert ev == t.event;
      if t.rest == "" {
        ElementDone(orig, done, first_nonopt, last_nonopt, o, ev, t.took);
      } else {
        ElementContinues(orig, done, first_nonopt, last_nonopt, o, ev, more.0, more.1);
      }
    }

    lemma ClusterStep(chars: string, next: Option<string>)
      requires chars != ""
      ensures var t := ShortOption(env, chars[0], chars[1..], next);
              var more := if t.rest == "" then ([], t.took) else Cluster(env, t.rest, next);
              Cluster(env, chars, next) == ([t.event] + more.0, more.1)
    {
      hide ShortOption;
      var t := ShortOption(env, chars[0], chars[1..], next);
      assert [t.event] + [] == [t.event];
    }

    /** Look the option up, take its argument and move on as the kind of argument demands. */
    method ShortReport(c: char, rest: string) returns (ev: Event)
      requires nextchar == Some(rest) && optarg.None?
      requires if rest == "" then 0 < optind <= argv.Length else optind < argv.Length
      modifies this`optind, this`nextchar, this`optarg
      ensures var o := if rest == "" then old(optind) - 1 else old(optind);
              var t := ShortOption(env, c, rest, Next(argv[o..]));
              && ev == t.event
              && (if t.rest == "" then Fresh() && optind == o + (if t.took then 2 else 1)
                  else nextchar == Some(t.rest) && optind == o)
    {
      var optstring := env.optstring;
      var temp := Find(optstring, c);
      if temp == |optstring| || c == ':' || c == ';' {
        return Event('?' as int, None, None); // invalid option
      }
      var code := c as int;
      if temp + 1 < |optstring| && optstring[temp + 1] == ':' {
        if temp + 2 < |optstring| && optstring[temp + 2] == ':' {
          if rest != "" {
            optarg := Some(rest);
            optind := optind + 1;
          } else {
            optarg := None;
          }
          nextchar := None;
        } else {
          if rest != "" {
            optarg := Some(rest);
            optind := optind + 1;
          } else if optind == argv.Length {
            code := env.Missing(); // option requires an argument
          } else {
            optarg := Some(argv[optind]);
            optind := optind + 1;
          }
          nextchar := None;
        }
      }
      ev := Event(code, optarg, None);
    }

    /** The loop over the long options: the first exact name, else the first abbreviation and whether another differs. */
    method MatchName(opts: seq<LongOption>, name: string) returns (m: Match)
      ensures m == MatchLong(opts, name)
    {
      var pfound: Option<nat> := None;
      var ambig, exact := false, false;
      ghost var k := FirstExact(opts, name);
      var option_index := 0;
      while option_index < |opts| && !exact
        invariant 0 <= option_index <= |opts|
        invariant !exact ==> option_index <= k
        invariant exact ==> k < |opts| && pfound == Some(k)
        invariant !exact && pfound.None? ==> forall i :: 0 <= i < option_index ==> !IsPrefix(name, opts[i].name)
        invariant !exact && pfound.Some? ==>
                    pfound.value < option_index && IsPrefix(name, opts[pfound.value].name)
                    && forall i :: 0 <= i < pfound.value ==> !IsPrefix(name, opts[i].name)
        invariant !exact && pfound.Some? ==>
                    (ambig <==> exists i :: 0 <= i < option_index && IsPrefix(name, opts[i].name)
                                            && !SameEffect(opts[pfound.value], opts[i]))
        invariant !exact && pfound.None? ==> !ambig
        decreases |opts| - option_index, if exact then 0 else 1
      {
        var p := opts[option_index];
        if IsPrefix(name, p.name) {
          if |name| == |p.name| {
            assert p.name == name;
            pfound := Some(option_index);
            exact := true;
          } else if pfound.None? {
            pfound := Some(option_index);
          } else if !SameEffect(opts[pfound.value], p) {
            ambig := true;
          }
        }
        if !exact {
          option_index := option_index + 1;
        }
      }
      PrefixFirst(opts, name, if pfound.Some? then pfound.value else |opts|, exact);
      if ambig && !exact {
        return Ambiguous;
      }
      if pfound.Some? {
        return Found(pfound.value);
      }
      return NoMatch;
    }

    lemma PrefixFirst(opts: seq<LongOption>, name: string, p: nat, exact: bool)
      requires p <= |opts|
      requires !exact ==> (p < |opts| ==> IsPrefix(name, opts[p].name)) && forall i :: 0 <= i < p ==> !IsPrefix(name, opts[i].name)
      ensures !exact ==> FirstPrefix(opts, name) == p
    {
    }

    /** The branch of _getopt_internal_r_a for a long option. */
    method TakeLong(ghost orig: seq<string>, ghost done: seq<Event>) returns (ev: Event)
      requires Fresh() && Progress(orig, done, first_nonopt, last_nonopt, optind) && optarg.None?
      requires optind < argv.Length && !IsOperand(argv[optind]) && argv[optind] != "--" && IsLong(env, argv[optind])
      modifies this`optind, this`nextchar, this`optarg
      ensures Progress(orig, done + [ev], first_nonopt, last_nonopt, optind)
    {
      hide Walk, PlanIs, After, MatchLong;
      ghost var o, args := optind, argv[optind..];
      LongPlan();
      var body := argv[optind][2..];
      var nameend := Find(body, '=');
      var opts := env.longopts.value;
      var m := MatchName(opts, body[..nameend]);
      nextchar := Some("");
      optind := optind + 1;
      var index: Option<nat> := None;
      var code := '?' as int;
      ghost var took := false;
      if m.Found? {
        var pfound := opts[m.index];
        if nameend < |body| {
          if pfound.has_arg != 0 {
            optarg := Some(body[nameend + 1..]);
            code, index := LongCode(pfound), Some(m.index);
          }
        } else if pfound.has_arg == 1 {
          if optind < argv.Length {
            optarg := Some(argv[optind]);
            optind := optind + 1;
            took := true;
            code, index := LongCode(pfound), Some(m.index);
          } else {
            code := env.Missing();
          }
        } else {
          code, index := LongCode(pfound), Some(m.index);
        }
      }
      ev := Event(code, optarg, index);
      assert (ev, took) == LongElement(env, body, Next(args));
      ElementDone(orig, done, first_nonopt, last_nonopt, o, ev, took);
    }

    lemma LongPlan()
      requires optind < argv.Length && !IsOperand(argv[optind]) && argv[optind] != "--" && IsLong(env, argv[optind])
      ensures var args := argv[optind..];
              var l := LongElement(env, argv[optind][2..], Next(args));
              Walk(env, args) == After(env, args, [l.0], l.1)
    {
      hide LongElement;
    }

    lemma ShortPlan()
      requires optind < argv.Length && !IsOperand(argv[optind]) && argv[optind] != "--" && !IsLong(env, argv[optind])
      ensures var args := argv[optind..];
              var c := Cluster(env, argv[optind][1..], Next(args));
              Walk(env, args) == After(env, args, c.0, c.1)
    {
      hide Cluster;
    }

    // ----- calls and runs

    /** The option string does not ask for `-W long`. */
    ghost predicate NoLongW() {
      var k := Find(env.optstring, 'W');
      k + 1 < |env.optstring| ==> env.optstring[k + 1] != ';'
    }

    /** The option string does not ask for another ordering. */
    ghost predicate Permutes() {
      env.optstring == "" || (env.optstring[0] != '-' && env.optstring[0] != '+')
    }

    /** _getopt_internal_r_a, PERMUTE ordering: one report, or None (-1) when the options are used up. */
    method Call(ghost orig: seq<string>, ghost done: seq<Event>) returns (r: Option<Event>)
      requires Inv(orig, done) && NoLongW() && Permutes()
      modifies this, argv
      ensures r.Some? ==> Inv(orig, done + [r.value])
      ensures r.None? ==> Finished(orig, done)
      ensures argv.Length == 0 ==> r.None?
    {
      hide Walk, PlanIs, IsOperand;
      if argv.Length < 1 {
        return None;
      }
      if initialized {
        Bounds(orig, done);
      }
      optarg := None;
      if optind == 0 || !initialized {
        if optind == 0 {
          optind := 1;
        }
        first_nonopt, last_nonopt := optind, optind;
        nextchar := None;
        initialized := true;
      }
      if nextchar.None? || nextchar.value == "" {
        Bounds(orig, done);
        if last_nonopt > optind || first_nonopt > optind {
          assert false; // the caller leaves optind alone
        }
        SkipOperands(orig, done);
        if optind != argv.Length && argv[optind] == "--" {
          TakeDashes(orig, done);
        }
        if optind == argv.Length {
          EndOfLine(orig, done);
          if first_nonopt != last_nonopt {
            optind := first_nonopt;
          }
          return None;
        }
        if IsOperand(argv[optind]) {
          assert false; // all operands were skipped
        }
        if IsLong(env, argv[optind]) {
          var ev := TakeLong(orig, done);
          return Some(ev);
        }
        ShortPlan();
        OptionLength(argv[optind]);
        nextchar := Some(argv[optind][1..]);
      }
      var ev := TakeShort(orig, done);
      r := Some(ev);
    }

    lemma Bounds(orig: seq<string>, done: seq<Event>)
      requires Progress(orig, done, first_nonopt, last_nonopt, optind)
      ensures 1 <= first_nonopt <= last_nonopt <= optind <= argv.Length
    {
      hide Walk;
    }

    lemma OptionLength(e: string)
      requires !IsOperand(e)
      ensures |e| >= 2
    {
    }

    lemma EndOfLine(orig: seq<string>, done: seq<Event>)
      requires Fresh() && Progress(orig, done, first_nonopt, last_nonopt, optind) && last_nonopt == optind == argv.Length
      ensures var plan := Walk(env, orig[1..]);
              && done == plan.events
              && argv[..] == orig[..1] + plan.opts + plan.operands
              && first_nonopt == 1 + |plan.opts|
    {
      var n := argv.Length;
      assert Walk(env, argv[n..]) == Plan([], [], []) by { assert argv[n..] == []; }
      hide Walk;
      assert argv[n..n] == [];
      assert argv[..] == argv[..1] + argv[1..first_nonopt] + argv[first_nonopt..n];
      assert argv[..1] == orig[..1];
    }

    /** Call after call until -1: every option reported in order, the line permuted, optind at the operands. */
    method Run(ghost orig: seq<string>) returns (events: seq<Event>)
      requires orig == argv[..] && Inv(orig, []) && NoLongW() && Permutes()
      modifies this, argv
      ensures Finished(orig, events)
    {
      hide Walk, Progress, NoLongW, Permutes;
      events := [];
      RunBound(orig, []);
      ghost var total := if argv.Length == 0 then 0 else |Walk(env, orig[1..]).events|;
      while true
        invariant Inv(orig, events) && NoLongW() && Permutes()
        invariant |events| <= total
        invariant total == if argv.Length == 0 then 0 else |Walk(env, orig[1..]).events|
        decreases total - |events|
      {
        var r := Call(orig, events);
        if r.None? {
          return;
        }
        events := events + [r.value];
        RunBound(orig, events);
      }
    }

    lemma RunBound(orig: seq<string>, done: seq<Event>)
      requires Inv(orig, done)
      ensures argv.Length > 0 ==> |done| <= |Walk(env, orig[1..]).events|
    {
      hide Walk, Remaining;
    }
  }

  lemma SwappedParts(s: seq<string>, f: nat, l: nat, o: nat, t: seq<string>)
    requires 1 <= f <= l <= o <= |s| && t == Swapped(s, f, l, o)
    ensures |t| == |s| && t[0] == s[0] && t[o..] == s[o..]
    ensures t[1..f + (o - l)] == s[1..f] + s[l..o]
    ensures t[f + (o - l)..o] == s[f..l]
  {
    assert t[0] == s[SwapSource(f, l, o, 0)];
    forall k | o <= k < |s| ensures t[k] == s[k] {
      assert t[k] == s[SwapSource(f, l, o, k)];
    }
    forall k | 1 <= k < f + (o - l) ensures t[k] == (s[1..f] + s[l..o])[k - 1] {
      assert t[k] == s[SwapSource(f, l, o, k)];
    }
    forall k | f + (o - l) <= k < o ensures t[k] == s[f..l][k - (f + (o - l))] {
      assert t[k] == s[SwapSource(f, l, o, k)];
    }
  }
}
