/**
 * What a command line means to getopt and getopt_long: which elements are options (with their
 * arguments), which are operands, and what each option reports. Defined on the list as given;
 * nothing is moved.
 */
module GetoptSpec {
  import opened Collections

  /** struct option_a; a flag is named by a number. */
  datatype LongOption = LongOption(name: string, has_arg: nat, flag: Option<nat>, val: int)

  /** What one call reports: the code, the argument and the position of a long option. */
  datatype Event = Event(code: int, optarg: Option<string>, index: Option<nat>)

  /** The option string and the long options; None is a null `longopts`. */
  datatype Env = Env(optstring: string, longopts: Option<seq<LongOption>>)
  {
    /** A leading colon asks for ':' instead of '?' when an argument is missing. */
    function Missing(): int {
      if optstring != "" && optstring[0] == ':' then ':' as int else '?' as int
    }
  }

  datatype ArgKind = Invalid | NoArgument | Required | Optional

  /** The first position of c, or the length. */
  function Find(s: string, c: char): (k: nat)
    ensures k <= |s|
    ensures k < |s| ==> s[k] == c
    ensures forall i :: 0 <= i < k ==> s[i] != c
  {
    if s == "" || s[0] == c then 0 else 1 + Find(s[1..], c)
  }

  function Lookup(optstring: string, c: char): ArgKind {
    var k := Find(optstring, c);
    if k == |optstring| || c == ':' || c == ';' then Invalid
    else if k + 1 < |optstring| && optstring[k + 1] == ':' then
      if k + 2 < |optstring| && optstring[k + 2] == ':' then Optional else Required
    else NoArgument
  }

  // ----- elements

  predicate IsOperand(e: string) { |e| < 2 || e[0] != '-' }

  predicate IsLong(env: Env, e: string) { env.longopts.Some? && |e| >= 2 && e[1] == '-' }

  /** One short option: its event, what is left of the element, whether the next element was taken. */
  datatype Taken = Taken(event: Event, rest: string, took: bool)

  function ShortOption(env: Env, c: char, rest: string, next: Option<string>): (r: Taken)
    ensures r.took ==> next.Some? && r.rest == ""
  {
    match Lookup(env.optstring, c)
    case Invalid => Taken(Event('?' as int, None, None), rest, false)
    case NoArgument => Taken(Event(c as int, None, None), rest, false)
    case Optional => Taken(Event(c as int, if rest != "" then Some(rest) else None, None), "", false)
    case Required =>
      if rest != "" then Taken(Event(c as int, Some(rest), None), "", false)
      else if next.Some? then Taken(Event(c as int, next, None), "", true)
      else Taken(Event(env.Missing(), None, None), "", false)
  }

  /** A cluster of short options such as -abc. */
  function Cluster(env: Env, chars: string, next: Option<string>): (r: (seq<Event>, bool))
    ensures r.1 ==> next.Some?
  {
    if chars == "" then ([], false) else
      var t := ShortOption(env, chars[0], chars[1..], next);
      if t.rest == "" then ([t.event], t.took)
      else
        var more := Cluster(env, t.rest, next);
        ([t.event] + more.0, more.1)
  }

  // ----- long options

  predicate IsPrefix(a: string, b: string) { |a| <= |b| && b[..|a|] == a }

  /** Different effects make an abbreviation ambiguous. */
  predicate SameEffect(a: LongOption, b: LongOption) {
    a.has_arg == b.has_arg && a.flag == b.flag && a.val == b.val
  }

  datatype Match = NoMatch | Ambiguous | Found(index: nat)

  function FirstExact(opts: seq<LongOption>, name: string): (k: nat)
    ensures k <= |opts|
    ensures k < |opts| ==> opts[k].name == name
    ensures forall i :: 0 <= i < k ==> opts[i].name != name
  {
    if opts == [] || opts[0].name == name then 0 else 1 + FirstExact(opts[1..], name)
  }

  function FirstPrefix(opts: seq<LongOption>, name: string): (k: nat)
    ensures k <= |opts|
    ensures k < |opts| ==> IsPrefix(name, opts[k].name)
    ensures forall i :: 0 <= i < k ==> !IsPrefix(name, opts[i].name)
  {
    if opts == [] || IsPrefix(name, opts[0].name) then 0 else 1 + FirstPrefix(opts[1..], name)
  }

  /** An exact name wins; otherwise an abbreviation must have one meaning. */
  function MatchLong(opts: seq<LongOption>, name: string): (m: Match)
    ensures m.Found? ==> m.index < |opts|
  {
    var k := FirstExact(opts, name);
    var p := FirstPrefix(opts, name);
    if k < |opts| then Found(k)
    else if p == |opts| then NoMatch
    else if exists i :: 0 <= i < |opts| && IsPrefix(name, opts[i].name) && !SameEffect(opts[p], opts[i]) then Ambiguous
    else Found(p)
  }

  function LongCode(o: LongOption): int { if o.flag.Some? then 0 else o.val }

  /** One long option; `body` is what follows the dashes. */
  function LongElement(env: Env, body: string, next: Option<string>): (r: (Event, bool))
    requires env.longopts.Some?
    ensures r.1 ==> next.Some?
  {
    var eq := Find(body, '=');
    var opts := env.longopts.value;
    match MatchLong(opts, body[..eq])
    case Ambiguous => (Event('?' as int, None, None), false)
    case NoMatch => (Event('?' as int, None, None), false)
    case Found(i) =>
      var o := opts[i];
      if eq < |body| then
        if o.has_arg != 0 then (Event(LongCode(o), Some(body[eq + 1..]), Some(i)), false)
        else (Event('?' as int, None, None), false)
      else if o.has_arg == 1 then
        if next.Some? then (Event(LongCode(o), next, Some(i)), true)
        else (Event(env.Missing(), None, None), false)
      else (Event(LongCode(o), None, Some(i)), false)
  }

  // ----- the whole command line

  datatype Plan = Plan(events: seq<Event>, opts: seq<string>, operands: seq<string>)

  /** What an option element reports, and how many elements it takes. */
  function Element(env: Env, e: string, next: Option<string>): (r: (seq<Event>, bool))
    requires !IsOperand(e)
    ensures r.1 ==> next.Some?
  {
    if IsLong(env, e) then
      var l := LongElement(env, e[2..], next);
      ([l.0], l.1)
    else Cluster(env, e[1..], next)
  }

  function Next(args: seq<string>): Option<string> {
    if |args| >= 2 then Some(args[1]) else None
  }

  /** The plan for the rest of a line whose first element reports `events`. */
  function After(env: Env, args: seq<string>, events: seq<Event>, took: bool): Plan
    requires args != [] && (took ==> |args| >= 2)
    decreases |args|, 0
  {
    var n := if took then 2 else 1;
    var rest := Walk(env, args[n..]);
    Plan(events + rest.events, args[..n] + rest.opts, rest.operands)
  }

  function Walk(env: Env, args: seq<string>): Plan
    decreases |args|, 1
  {
    if args == [] then Plan([], [], [])
    else if args[0] == "--" then Plan([], args[..1], args[1..])
    else if IsOperand(args[0]) then
      var rest := Walk(env, args[1..]);
      rest.(operands := args[..1] + rest.operands)
    else
      var r := Element(env, args[0], Next(args));
      After(env, args, r.0, r.1)
  }

  lemma Sum(a: seq<string>, b: seq<string>)
    ensures multiset(a + b) == multiset(a) + multiset(b)
  {
  }

  /** An operand in front joins the operands. */
  lemma InsertOperand(args: seq<string>, opts: seq<string>, operands: seq<string>)
    requires args != [] && multiset(opts + operands) == multiset(args[1..])
    ensures multiset(opts + (args[..1] + operands)) == multiset(args)
  {
    assert args == args[..1] + args[1..];
    Sum(opts, operands);
    Sum(opts, args[..1] + operands);
    Sum(args[..1], operands);
    Sum(args[..1], args[1..]);
  }

  /** Option elements in front join the options. */
  lemma InsertOptions(args: seq<string>, n: nat, opts: seq<string>, operands: seq<string>)
    requires n <= |args| && multiset(opts + operands) == multiset(args[n..])
    ensures multiset(args[..n] + opts + operands) == multiset(args)
  {
    assert args == args[..n] + args[n..];
    assert args[..n] + opts + operands == args[..n] + (opts + operands);
    Sum(args[..n], opts + operands);
    Sum(args[..n], args[n..]);
  }

  /** Nothing is lost or invented: options and operands together are the line. */
  lemma {:induction false} WalkPermutes(env: Env, args: seq<string>)
    ensures multiset(Walk(env, args).opts + Walk(env, args).operands) == multiset(args)
    decreases |args|
  {
    hide Element, IsOperand;
    if args == [] {
    } else if args[0] == "--" {
      assert args == args[..1] + args[1..];
    } else if IsOperand(args[0]) {
      WalkPermutes(env, args[1..]);
      var rest := Walk(env, args[1..]);
      InsertOperand(args, rest.opts, rest.operands);
    } else {
      var r := Element(env, args[0], Next(args));
      var n := if r.1 then 2 else 1;
      WalkPermutes(env, args[n..]);
      var rest := Walk(env, args[n..]);
      InsertOptions(args, n, rest.opts, rest.operands);
      assert Walk(env, args) == Plan(r.0 + rest.events, args[..n] + rest.opts, rest.operands);
    }
  }

  /** Every operand is one of the elements that do not look like options, or comes behind "--". */
  lemma {:induction false} WalkOperands(env: Env, args: seq<string>, i: nat)
    requires i < |Walk(env, args).operands| && "--" !in args
    ensures IsOperand(Walk(env, args).operands[i])
    decreases |args|
  {
    hide Element;
    if args == [] {
    } else if IsOperand(args[0]) {
      if i > 0 {
        WalkOperands(env, args[1..], i - 1);
      }
    } else {
      var n := if Element(env, args[0], Next(args)).1 then 2 else 1;
      WalkOperands(env, args[n..], i);
    }
  }
}
