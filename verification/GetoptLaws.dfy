/**
 * What a command line reports, stated on the elements themselves: the code, the argument and the index of a
 * long option by its name, and the code and the argument of a short option by the option string. The first
 * report is given here; the rest is that of the remaining line.
 */
module GetoptLaws {
  import opened Collections
  import opened GetoptSpec

  /** The code of a missing argument. */
  function MissingCode(optstring: string): int {
    if |optstring| > 0 && optstring[0] == ':' then ':' as int else '?' as int
  }

  // ----- long options

  predicate Abbreviates(name: string, o: LongOption) { |name| <= |o.name| && o.name[..|name|] == name }

  /** The name is that of option i and no earlier one, or abbreviates option i first and only options like it. */
  ghost predicate Selects(opts: seq<LongOption>, name: string, i: nat) {
    && i < |opts|
    && if exists j :: 0 <= j < |opts| && opts[j].name == name
       then opts[i].name == name && forall j :: 0 <= j < i ==> opts[j].name != name
       else && Abbreviates(name, opts[i])
            && (forall j :: 0 <= j < i ==> !Abbreviates(name, opts[j]))
            && forall j :: 0 <= j < |opts| && Abbreviates(name, opts[j]) ==>
                             opts[j].has_arg == opts[i].has_arg && opts[j].flag == opts[i].flag && opts[j].val == opts[i].val
  }

  lemma SelectsMatch(opts: seq<LongOption>, name: string, i: nat)
    requires Selects(opts, name, i)
    ensures MatchLong(opts, name) == Found(i)
  {
    var k, p := FirstExact(opts, name), FirstPrefix(opts, name);
    if exists j :: 0 <= j < |opts| && opts[j].name == name {
      assert k == i;
    } else {
      assert k == |opts|;
      assert Abbreviates(name, opts[i]) && IsPrefix(name, opts[i].name);
      assert p <= i;
      assert p == i by {
        if p < i {
          assert Abbreviates(name, opts[p]);
        }
      }
      forall j | 0 <= j < |opts| && IsPrefix(name, opts[j].name)
        ensures SameEffect(opts[p], opts[j])
      {
        assert Abbreviates(name, opts[j]);
      }
    }
  }

  lemma Uninterrupted(name: string, value: string)
    requires '=' !in name
    ensures Find(name, '=') == |name|
    ensures Find(name + "=" + value, '=') == |name|
  {
    var s := name + "=" + value;
    assert s[|name|] == '=';
    assert forall i :: 0 <= i < |name| ==> s[i] == name[i];
  }

  /** The report of a long option, and how much of the line it takes. */
  ghost predicate Reports(env: Env, args: seq<string>, ev: Event, n: nat) {
    && 1 <= n <= |args|
    && var plan, rest := Walk(env, args), Walk(env, args[n..]);
    plan.events == [ev] + rest.events && plan.opts == args[..n] + rest.opts && plan.operands == rest.operands
  }

  lemma LongReports(env: Env, args: seq<string>, body: string)
    requires env.longopts.Some? && args != [] && args[0] == "--" + body && body != ""
    ensures var l := LongElement(env, body, Next(args)); Reports(env, args, l.0, if l.1 then 2 else 1)
  {
    hide LongElement;
    assert args[0][2..] == body && args[0][0] == '-' && args[0][1] == '-' && args[0] != "--";
    var l := LongElement(env, body, Next(args));
    assert Element(env, args[0], Next(args)) == ([l.0], l.1);
    assert Walk(env, args) == After(env, args, [l.0], l.1);
  }

  /** --name: the code is the option's value, or zero if it sets a flag; a demanded argument is the next element. */
  lemma LongName(env: Env, args: seq<string>, name: string, i: nat)
    requires env.longopts.Some? && Selects(env.longopts.value, name, i) && '=' !in name && name != ""
    requires args != [] && args[0] == "--" + name
    ensures var o := env.longopts.value[i];
            var code := if o.flag == None then o.val else 0;
            if o.has_arg != 1 then Reports(env, args, Event(code, None, Some(i)), 1)
            else if |args| >= 2 then Reports(env, args, Event(code, Some(args[1]), Some(i)), 2)
            else Reports(env, args, Event(MissingCode(env.optstring), None, None), 1)
  {
    hide Reports, Selects;
    SelectsMatch(env.longopts.value, name, i);
    Uninterrupted(name, "");
    assert name[..|name|] == name;
    LongReports(env, args, name);
  }

  /** --name=value: the value is the argument, unless the option takes none. */
  lemma LongValue(env: Env, args: seq<string>, name: string, value: string, i: nat)
    requires env.longopts.Some? && Selects(env.longopts.value, name, i) && '=' !in name
    requires args != [] && args[0] == "--" + (name + "=" + value)
    ensures var o := env.longopts.value[i];
            var code := if o.flag == None then o.val else 0;
            Reports(env, args, if o.has_arg != 0 then Event(code, Some(value), Some(i)) else Event('?' as int, None, None), 1)
  {
    hide Reports, Selects;
    SelectsMatch(env.longopts.value, name, i);
    Uninterrupted(name, value);
    var body := name + "=" + value;
    assert body[..|name|] == name && body[|name| + 1..] == value;
    LongReports(env, args, body);
  }

  /** Same argument, flag and value: the effect of either option. */
  predicate Alike(a: LongOption, b: LongOption) { a.has_arg == b.has_arg && a.flag == b.flag && a.val == b.val }

  /** The name abbreviates no option, or options of different effect. */
  ghost predicate SelectsNone(opts: seq<LongOption>, name: string) {
    && (forall j :: 0 <= j < |opts| ==> opts[j].name != name)
    && ((forall j :: 0 <= j < |opts| ==> !Abbreviates(name, opts[j]))
        || exists j, k :: 0 <= j < k < |opts| && Abbreviates(name, opts[j]) && Abbreviates(name, opts[k]) && !Alike(opts[j], opts[k]))
  }

  lemma SelectsNoMatch(opts: seq<LongOption>, name: string)
    requires SelectsNone(opts, name)
    ensures !MatchLong(opts, name).Found?
  {
    var p := FirstPrefix(opts, name);
    if p < |opts| {
      assert Abbreviates(name, opts[p]);
      var a, b :| 0 <= a < b < |opts| && Abbreviates(name, opts[a]) && Abbreviates(name, opts[b]) && !Alike(opts[a], opts[b]);
      assert IsPrefix(name, opts[a].name) && IsPrefix(name, opts[b].name);
      assert !SameEffect(opts[p], opts[a]) || !SameEffect(opts[p], opts[b]);
    }
  }

  /** Such a name is an error, with or without a value. */
  lemma LongUnknown(env: Env, args: seq<string>, name: string, tail: string)
    requires env.longopts.Some? && SelectsNone(env.longopts.value, name)
    requires '=' !in name && (tail == "" || tail[0] == '=') && name + tail != ""
    requires args != [] && args[0] == "--" + (name + tail)
    ensures Reports(env, args, Event('?' as int, None, None), 1)
  {
    hide Reports, SelectsNone, MatchLong;
    if tail == "" {
      assert name + tail == name;
    } else {
      assert name + tail == name + "=" + tail[1..];
    }
    Uninterrupted(name, if tail == "" then "" else tail[1..]);
    assert (name + tail)[..|name|] == name;
    SelectsNoMatch(env.longopts.value, name);
    LongReports(env, args, name + tail);
  }

  // ----- short options

  /** The first place of letter c in the option string; the two separators are no letters. */
  ghost predicate LetterAt(optstring: string, c: char, k: nat) {
    k < |optstring| && optstring[k] == c && (forall j :: 0 <= j < k ==> optstring[j] != c) && c != ':' && c != ';'
  }

  /** One colon behind the letter demands an argument, two allow one. */
  function Colons(optstring: string, k: nat): nat {
    if k + 1 < |optstring| && optstring[k + 1] == ':' then
      if k + 2 < |optstring| && optstring[k + 2] == ':' then 2 else 1
    else 0
  }

  lemma LetterFound(optstring: string, c: char, k: nat)
    requires LetterAt(optstring, c, k)
    ensures Lookup(optstring, c) == if Colons(optstring, k) == 0 then NoArgument else if Colons(optstring, k) == 1 then Required else Optional
  {
    var f := Find(optstring, c);
    assert f == k;
  }

  /** The element is a cluster of short options that begins with c. */
  ghost predicate ClusterOf(env: Env, args: seq<string>, c: char, rest: string) {
    args != [] && args[0] == "-" + ([c] + rest) && (c == '-' ==> env.longopts.None? && rest != "")
  }

  lemma ClusterReports(env: Env, args: seq<string>, c: char, rest: string)
    requires ClusterOf(env, args, c, rest)
    ensures var t := ShortOption(env, c, rest, Next(args));
            && (t.took ==> |args| >= 2)
            && |Walk(env, args).events| > 0 && Walk(env, args).events[0] == t.event
            && (t.rest == "" ==> Reports(env, args, t.event, if t.took then 2 else 1))
            && (t.rest != "" && t.rest[0] != '-' && !t.took ==>
                  Walk(env, args).events == [t.event] + Walk(env, ["-" + t.rest] + args[1..]).events)
  {
    hide ShortOption;
    var chars := [c] + rest;
    assert args[0][1..] == chars && args[0][0] == '-' && args[0][1] == c && chars[1..] == rest && args[0] != "--";
    var t := ShortOption(env, c, rest, Next(args));
    var r := Cluster(env, chars, Next(args));
    assert Walk(env, args) == After(env, args, r.0, r.1);
    if t.rest != "" && t.rest[0] != '-' {
      RestReports(env, args, t.rest, t.event);
    }
  }

  /** The rest of a cluster reads like an element of its own. */
  lemma RestReports(env: Env, args: seq<string>, rest: string, ev: Event)
    requires args != [] && rest != "" && rest[0] != '-'
    ensures var more := Cluster(env, rest, Next(args));
            && Walk(env, ["-" + rest] + args[1..]).events == After(env, args, more.0, more.1).events
            && After(env, args, [ev] + more.0, more.1).events == [ev] + After(env, args, more.0, more.1).events
  {
    hide Cluster;
    var line := ["-" + rest] + args[1..];
    var more := Cluster(env, rest, Next(args));
    assert line[0][1..] == rest && Next(line) == Next(args);
    var n := if more.1 then 2 else 1;
    assert line[n..] == args[n..];
    assert Walk(env, line) == After(env, line, more.0, more.1);
  }

  /** A letter that takes no argument reports itself; what follows it in the element is read on. */
  lemma PlainLetter(env: Env, args: seq<string>, c: char, rest: string, k: nat)
    requires ClusterOf(env, args, c, rest) && LetterAt(env.optstring, c, k) && Colons(env.optstring, k) == 0
    ensures |Walk(env, args).events| > 0 && Walk(env, args).events[0] == Event(c as int, None, None)
    ensures rest == "" ==> Reports(env, args, Event(c as int, None, None), 1)
    ensures rest != "" && rest[0] != '-' ==>
              Walk(env, args).events == [Event(c as int, None, None)] + Walk(env, ["-" + rest] + args[1..]).events
  {
    hide Reports, ClusterOf, LetterAt, Lookup;
    LetterFound(env.optstring, c, k);
    ClusterReports(env, args, c, rest);
  }

  /** A letter that demands an argument takes the rest of the element, or the next element, or reports its lack. */
  lemma LetterWithArgument(env: Env, args: seq<string>, c: char, rest: string, k: nat)
    requires ClusterOf(env, args, c, rest) && LetterAt(env.optstring, c, k) && Colons(env.optstring, k) == 1
    ensures if rest != "" then Reports(env, args, Event(c as int, Some(rest), None), 1)
            else if |args| >= 2 then Reports(env, args, Event(c as int, Some(args[1]), None), 2)
            else Reports(env, args, Event(MissingCode(env.optstring), None, None), 1)
  {
    hide Reports, ClusterOf, LetterAt, Lookup;
    LetterFound(env.optstring, c, k);
    ClusterReports(env, args, c, rest);
  }

  /** With two colons only the rest of the element counts. */
  lemma LetterWithOption(env: Env, args: seq<string>, c: char, rest: string, k: nat)
    requires ClusterOf(env, args, c, rest) && LetterAt(env.optstring, c, k) && Colons(env.optstring, k) == 2
    ensures Reports(env, args, Event(c as int, if rest != "" then Some(rest) else None, None), 1)
  {
    hide Reports, ClusterOf, LetterAt, Lookup;
    LetterFound(env.optstring, c, k);
    ClusterReports(env, args, c, rest);
  }

  /** Other letters are errors, and the cluster goes on. */
  lemma UnknownLetter(env: Env, args: seq<string>, c: char, rest: string)
    requires ClusterOf(env, args, c, rest) && (c !in env.optstring || c == ':' || c == ';')
    ensures |Walk(env, args).events| > 0 && Walk(env, args).events[0] == Event('?' as int, None, None)
    ensures rest == "" ==> Reports(env, args, Event('?' as int, None, None), 1)
    ensures rest != "" && rest[0] != '-' ==>
              Walk(env, args).events == [Event('?' as int, None, None)] + Walk(env, ["-" + rest] + args[1..]).events
  {
    hide Reports, ClusterOf;
    ClusterReports(env, args, c, rest);
  }

  // ----- operands

  /** An element without a leading dash, or a dash alone, is an operand; what follows is read on. */
  lemma OperandFirst(env: Env, args: seq<string>)
    requires args != [] && (args[0] == "" || args[0] == "-" || args[0][0] != '-')
    ensures var plan, rest := Walk(env, args), Walk(env, args[1..]);
            plan.events == rest.events && plan.opts == rest.opts && plan.operands == [args[0]] + rest.operands
  {
    assert args[..1] == [args[0]];
  }

  /** Behind two dashes everything is an operand. */
  lemma DashesFirst(env: Env, args: seq<string>)
    requires args != [] && args[0] == "--"
    ensures Walk(env, args) == Plan([], ["--"], args[1..])
  {
    assert args[..1] == ["--"];
  }

  /** For instance, --help with the option (help, 0, null, 'h'). */
  lemma HelpOption(optstring: string)
    ensures Walk(Env(optstring, Some([LongOption("help", 0, None, 'h' as int)])), ["--help"]).events == [Event(104, None, Some(0))]
  {
    hide Walk;
    var opts := [LongOption("help", 0, None, 'h' as int)];
    var env, args := Env(optstring, Some(opts)), ["--help"];
    assert opts[0].name == "help";
    assert args[0] == "--" + "help";
    LongName(env, args, "help", 0);
    assert args[1..] == [];
    NothingLeft(env);
  }

  lemma NothingLeft(env: Env)
    ensures Walk(env, []) == Plan([], [], [])
  {
  }
}
