/**
  The configuration half of the `install` subcommand: the seven prompts in
  order, and the environment file assembled from their answers. A simplified
  reader for that file (one `KEY=value` per line, split at the first `=`) is
  the partner: as it reads the file, the six template answers reach the
  template fields, and the listen answer becomes the listen address when it
  parses.
 */
module Install {
  import opened Wrappers
  import Config
  import Prompt
  import RemoteAddress

  /** The answers to the seven prompts. */
  datatype Answers = Answers(
    listenAddr: string,
    asNumber: string,
    asName: string,
    routerDomain: string,
    routerId: string,
    addressV4: string,
    addressV6: string)

  /** The number of prompts. */
  const PromptCount := 7

  /** The prompts' defaults, shown in brackets and taken for a blank answer. */
  const PromptDefaults: seq<string> := [
    "[::]:80", "AS63806", "MENHERA", "nc.menhera.org", "rv128", "43.228.174.128", "2001:df3:14c0:1128::1"
  ]

  /** The answers that accept every default. */
  const DefaultAnswers := FromValues(PromptDefaults)

  /** The answers in prompt order. */
  function Values(a: Answers): (vs: seq<string>)
    ensures |vs| == PromptCount
  {
    [a.listenAddr, a.asNumber, a.asName, a.routerDomain, a.routerId, a.addressV4, a.addressV6]
  }

  /** What the line editor returns at prompt `i`; once the input is used up it reports end of input. */
  function InputAt(inputs: seq<Prompt.LineResult>, i: nat): Prompt.LineResult {
    if i < |inputs| then inputs[i] else Prompt.Eof
  }

  /** `readline` at prompt `i`, whose default is `defaults[i]`. */
  function Ask(inputs: seq<Prompt.LineResult>, defaults: seq<string>, i: nat): (r: Prompt.Reply)
    requires i < |defaults|
  {
    Prompt.Readline(InputAt(inputs, i), defaults[i])
  }

  /** The first prompt from `i` on that gets no line, or `PromptCount` when every one does. */
  function FirstUnanswered(inputs: seq<Prompt.LineResult>, i: nat): (f: nat)
    requires i <= PromptCount
    decreases PromptCount - i
    ensures i <= f <= PromptCount
    ensures forall j :: i <= j < f ==> InputAt(inputs, j).Line?
    ensures f < PromptCount ==> !InputAt(inputs, f).Line?
  {
    if i == PromptCount || !InputAt(inputs, i).Line? then i else FirstUnanswered(inputs, i + 1)
  }

  /**
    Prompts `i` onwards in order: all their answers when every one gets a
    line, otherwise the abort message of the first that does not.
   */
  function AskFrom(inputs: seq<Prompt.LineResult>, defaults: seq<string>, i: nat): (r: Result<seq<string>, string>)
    requires |defaults| == PromptCount && i <= PromptCount
    decreases PromptCount - i
    ensures r.Ok? <==> FirstUnanswered(inputs, i) == PromptCount
    ensures r.Ok? ==> |r.value| == PromptCount - i
  {
    if i == PromptCount then Ok([])
    else match Ask(inputs, defaults, i)
      case Abort(message) => Err(message)
      case Answer(v) =>
        match AskFrom(inputs, defaults, i + 1)
        case Err(message) => Err(message)
        case Ok(vs) => Ok([v] + vs)
  }

  /** When every prompt from `i` on is answered, the `k`-th answer is what `readline` made of the `k`-th line. */
  lemma {:induction false} AskFromAnswers(inputs: seq<Prompt.LineResult>, defaults: seq<string>, i: nat, k: nat)
    requires |defaults| == PromptCount && i <= k < PromptCount
    requires AskFrom(inputs, defaults, i).Ok?
    ensures Ask(inputs, defaults, k) == Prompt.Answer(AskFrom(inputs, defaults, i).value[k - i])
    decreases k - i
  {
    if k > i {
      AskFromAnswers(inputs, defaults, i + 1, k);
    }
  }

  /** An abort carries the message of the first prompt that got no line. */
  lemma {:induction false} AskFromAborts(inputs: seq<Prompt.LineResult>, defaults: seq<string>, i: nat)
    requires |defaults| == PromptCount && i <= PromptCount
    requires AskFrom(inputs, defaults, i).Err?
    ensures FirstUnanswered(inputs, i) < PromptCount
    ensures Ask(inputs, defaults, FirstUnanswered(inputs, i)) == Prompt.Abort(AskFrom(inputs, defaults, i).error)
    decreases PromptCount - i
  {
    if InputAt(inputs, i).Line? {
      AskFromAborts(inputs, defaults, i + 1);
    }
  }

  /** The answers, given in prompt order. */
  function FromValues(vs: seq<string>): (a: Answers)
    requires |vs| == PromptCount
    ensures Values(a) == vs
  {
    Answers(vs[0], vs[1], vs[2], vs[3], vs[4], vs[5], vs[6])
  }

  /** Prompting succeeds exactly when every prompt gets a line. */
  lemma AllAnsweredIff(inputs: seq<Prompt.LineResult>, defaults: seq<string>)
    requires |defaults| == PromptCount
    ensures AskFrom(inputs, defaults, 0).Ok? <==> forall k :: 0 <= k < PromptCount ==> InputAt(inputs, k).Line?
  {
    var f := FirstUnanswered(inputs, 0);
    if f < PromptCount {
      assert !InputAt(inputs, f).Line?;
    }
  }

  /** When every prompt is answered, answer `k` is the normalised line given at prompt `k`. */
  lemma AnswerIsNormalized(inputs: seq<Prompt.LineResult>, defaults: seq<string>, k: nat)
    requires |defaults| == PromptCount && k < PromptCount && AskFrom(inputs, defaults, 0).Ok?
    ensures InputAt(inputs, k).Line?
    ensures AskFrom(inputs, defaults, 0).value[k] == Prompt.Normalize(InputAt(inputs, k).text, defaults[k])
  {
    AskFromAnswers(inputs, defaults, 0, k);
    Prompt.AnsweredLine(InputAt(inputs, k), defaults[k], AskFrom(inputs, defaults, 0).value[k]);
  }

  /** When every prompt is answered, each answer is the normalised line given at its prompt. */
  lemma AnswersAreNormalized(inputs: seq<Prompt.LineResult>, defaults: seq<string>)
    requires |defaults| == PromptCount && AskFrom(inputs, defaults, 0).Ok?
    ensures forall k :: 0 <= k < PromptCount ==>
      InputAt(inputs, k).Line? && AskFrom(inputs, defaults, 0).value[k] == Prompt.Normalize(InputAt(inputs, k).text, defaults[k])
  {
    forall k | 0 <= k < PromptCount
      ensures InputAt(inputs, k).Line?
      ensures AskFrom(inputs, defaults, 0).value[k] == Prompt.Normalize(InputAt(inputs, k).text, defaults[k])
    {
      AnswerIsNormalized(inputs, defaults, k);
    }
  }

  /**
    The prompting step with the defaults table `defaults`: the seven answers,
    each the normalised line given at its prompt, or the abort message of the
    first prompt that got no line.
   */
  function Configure(inputs: seq<Prompt.LineResult>, defaults: seq<string>): (r: Result<Answers, string>)
    requires |defaults| == PromptCount
    ensures r.Ok? <==> forall k :: 0 <= k < PromptCount ==> InputAt(inputs, k).Line?
    ensures r.Ok? ==> forall k :: 0 <= k < PromptCount ==>
      InputAt(inputs, k).Line? && Values(r.value)[k] == Prompt.Normalize(InputAt(inputs, k).text, defaults[k])
    ensures r.Err? ==>
      && FirstUnanswered(inputs, 0) < PromptCount
      && Ask(inputs, defaults, FirstUnanswered(inputs, 0)) == Prompt.Abort(r.error)
  {
    AllAnsweredIff(inputs, defaults);
    match AskFrom(inputs, defaults, 0)
    case Err(message) =>
      AskFromAborts(inputs, defaults, 0);
      Err(message)
    case Ok(vs) =>
      AnswersAreNormalized(inputs, defaults);
      Ok(FromValues(vs))
  }

  /** Seven blank lines accept every default; the listen address is then `[::]:80`, not the server's `[::]:8080`. */
  lemma BlankAnswersGiveDefaults(inputs: seq<Prompt.LineResult>)
    requires |inputs| == PromptCount
    requires forall k :: 0 <= k < |inputs| ==> inputs[k].Line? && Prompt.AllWhitespace(inputs[k].text)
    ensures Configure(inputs, PromptDefaults) == Ok(DefaultAnswers)
    ensures DefaultAnswers.listenAddr != Config.DefaultListenAddr
  {
    var a := Configure(inputs, PromptDefaults).value;
    assert Values(a) == PromptDefaults == Values(DefaultAnswers);
  }

  /** One `KEY=value` line. */
  function Assignment(key: string, value: string): string {
    key + "=" + value
  }

  lemma NoNewlineInAssignment(key: string, value: string)
    requires '\n' !in key && '\n' !in value
    ensures '\n' !in Assignment(key, value)
  {
  }

  /** The file's lines in order: `LISTEN_ADDR`, `ASN`, `AS_NAME`, `ROUTER_DOMAIN`, `ROUTER_ID`, `ADDRESS_V4`, `ADDRESS_V6`. */
  function Assignments(a: Answers): (lines: seq<string>)
    ensures |lines| == |EnvKeys|
    ensures forall k :: 0 <= k < |EnvKeys| ==> lines[k] == Assignment(EnvKeys[k], Values(a)[k])
  {
    [ Assignment(Config.ListenAddrKey, a.listenAddr),
      Assignment(Config.AsnKey, a.asNumber),
      Assignment(Config.AsNameKey, a.asName),
      Assignment(Config.RouterDomainKey, a.routerDomain),
      Assignment(Config.RouterIdKey, a.routerId),
      Assignment(Config.AddressV4Key, a.addressV4),
      Assignment(Config.AddressV6Key, a.addressV6) ]
  }

  /** Each line followed by a newline: the text ends in a newline unless there are no lines. */
  function Terminated(lines: seq<string>): (text: string)
    ensures text == [] <==> lines == []
    ensures text != [] ==> text[|text| - 1] == '\n'
  {
    if lines == [] then "" else lines[0] + "\n" + Terminated(lines[1..])
  }

  /** The environment file: an empty first line, then the seven assignments, each ending in a newline. */
  function EnvFileText(a: Answers): (text: string)
    ensures |text| >= 2 && text[0] == '\n' && text[|text| - 1] == '\n'
  {
    "\n" + Terminated(Assignments(a))
  }

  /** `s` cut at every `sep`; n separators give n + 1 pieces. */
  function Split(s: string, sep: char): (parts: seq<string>)
    ensures |parts| >= 1
    ensures forall k :: 0 <= k < |parts| ==> sep !in parts[k]
  {
    if s == [] then [[]]
    else
      var rest := Split(s[1..], sep);
      if s[0] == sep then [[]] + rest
      else
        assert forall k :: 1 <= k < |rest| ==> sep !in rest[k];
        [[s[0]] + rest[0]] + rest[1..]
  }

  lemma {:induction false} SplitAfterPiece(a: string, b: string, sep: char)
    requires sep !in a
    ensures Split(a + [sep] + b, sep) == [a] + Split(b, sep)
  {
    if a != [] {
      assert (a + [sep] + b)[1..] == a[1..] + [sep] + b;
      SplitAfterPiece(a[1..], b, sep);
      assert [a[0]] + a[1..] == a;
    } else {
      assert a + [sep] + b == [sep] + b;
    }
  }

  lemma {:induction false} SplitTerminated(lines: seq<string>)
    requires forall k :: 0 <= k < |lines| ==> '\n' !in lines[k]
    ensures Split(Terminated(lines), '\n') == lines + [""]
  {
    if lines != [] {
      SplitAfterPiece(lines[0], Terminated(lines[1..]), '\n');
      SplitTerminated(lines[1..]);
      assert lines == [lines[0]] + lines[1..];
    }
  }

  /** `s` cut at its first `c`, if it has one. */
  function SplitFirst(s: string, c: char): (r: Option<(string, string)>)
    ensures r.None? <==> c !in s
    ensures r.Some? ==> c !in r.value.0 && s == r.value.0 + [c] + r.value.1
  {
    if s == [] then None
    else if s[0] == c then Some(([], s[1..]))
    else match SplitFirst(s[1..], c)
      case None => None
      case Some((k, v)) => Some(([s[0]] + k, v))
  }

  lemma {:induction false} SplitFirstOfAssignment(k: string, v: string, c: char)
    requires c !in k
    ensures SplitFirst(k + [c] + v, c) == Some((k, v))
  {
    if k != [] {
      assert (k + [c] + v)[1..] == k[1..] + [c] + v;
      SplitFirstOfAssignment(k[1..], v, c);
      assert [k[0]] + k[1..] == k;
    } else {
      assert k + [c] + v == [c] + v;
    }
  }

  /** One line of the file: `KEY=value` sets `KEY`; a line without `=` sets nothing. */
  function ReadEnvLine(env: Config.Env, line: string): Config.Env {
    match SplitFirst(line, '=')
    case None => env
    case Some((k, v)) => env[k := Config.Text(v)]
  }

  function ReadEnvLines(env: Config.Env, lines: seq<string>): Config.Env
    decreases |lines|
  {
    if lines == [] then env else ReadEnvLines(ReadEnvLine(env, lines[0]), lines[1..])
  }

  /** The environment a service started with this file sees (quoting, comments and continuation lines are not modelled). */
  function ReadEnvFile(text: string): Config.Env {
    ReadEnvLines(map[], Split(text, '\n'))
  }

  predicate NoNewlines(a: Answers) {
    forall k :: 0 <= k < |Values(a)| ==> '\n' !in Values(a)[k]
  }

  /** The file is one empty line, the seven assignments in order, and the empty piece after the final newline. */
  lemma EnvFileLines(a: Answers)
    requires NoNewlines(a)
    ensures Split(EnvFileText(a), '\n') == [""] + Assignments(a) + [""]
  {
    var ls := Assignments(a);
    EnvKeysWellFormed();
    forall k | 0 <= k < |ls| ensures '\n' !in ls[k] {
      assert '\n' !in Values(a)[k];
      NoNewlineInAssignment(EnvKeys[k], Values(a)[k]);
    }
    SplitAfterPiece("", Terminated(ls), '\n');
    SplitTerminated(ls);
  }

  lemma ReadAssignment(env: Config.Env, key: string, value: string)
    requires '=' !in key
    ensures ReadEnvLine(env, Assignment(key, value)) == env[key := Config.Text(value)]
  {
    SplitFirstOfAssignment(key, value, '=');
  }

  /** The file's keys, in the order they are written. */
  const EnvKeys: seq<string> := [Config.ListenAddrKey, Config.AsnKey, Config.AsNameKey,
    Config.RouterDomainKey, Config.RouterIdKey, Config.AddressV4Key, Config.AddressV6Key]

  /** The seven keys are distinct and none contains `=` or a newline. */
  lemma EnvKeysWellFormed()
    ensures |EnvKeys| == PromptCount
    ensures forall i, j :: 0 <= i < j < |EnvKeys| ==> EnvKeys[i] != EnvKeys[j]
    ensures forall k :: 0 <= k < |EnvKeys| ==> '=' !in EnvKeys[k] && '\n' !in EnvKeys[k]
  {
  }

  lemma {:induction false} ReadEnvLinesAppend(env: Config.Env, xs: seq<string>, ys: seq<string>)
    ensures ReadEnvLines(env, xs + ys) == ReadEnvLines(ReadEnvLines(env, xs), ys)
    decreases |xs|
  {
    if xs != [] {
      assert (xs + ys)[1..] == xs[1..] + ys;
      ReadEnvLinesAppend(ReadEnvLine(env, xs[0]), xs[1..], ys);
    } else {
      assert xs + ys == ys;
    }
  }

  /**
    Reading `KEY=value` lines with distinct keys free of `=` sets each key to
    its value and leaves every other variable as it was.
   */
  lemma {:induction false} ReadAssignments(env: Config.Env, keys: seq<string>, values: seq<string>, lines: seq<string>)
    requires |keys| == |values| == |lines|
    requires forall k :: 0 <= k < |lines| ==> '=' !in keys[k] && lines[k] == Assignment(keys[k], values[k])
    requires forall i, j :: 0 <= i < j < |keys| ==> keys[i] != keys[j]
    ensures forall x :: x in ReadEnvLines(env, lines) <==> x in env || x in keys
    ensures forall k :: 0 <= k < |keys| ==> ReadEnvLines(env, lines)[keys[k]] == Config.Text(values[k])
    ensures forall x :: x in env && x !in keys ==> ReadEnvLines(env, lines)[x] == env[x]
    decreases |lines|
  {
    if lines != [] {
      var env' := env[keys[0] := Config.Text(values[0])];
      ReadAssignment(env, keys[0], values[0]);
      ReadAssignments(env', keys[1..], values[1..], lines[1..]);
      var r := ReadEnvLines(env', lines[1..]);
      assert ReadEnvLines(env, lines) == r;
      assert keys == [keys[0]] + keys[1..];
      assert keys[0] !in keys[1..];
      forall k | 0 <= k < |keys| ensures r[keys[k]] == Config.Text(values[k]) {
        if k > 0 {
          assert keys[k] == keys[1..][k - 1] && values[k] == values[1..][k - 1];
        }
      }
    }
  }

  /**
    Reading the file back gives exactly the seven keys, each set to its
    answer verbatim.
   */
  lemma EnvFileRoundTrip(a: Answers)
    requires NoNewlines(a)
    ensures forall x :: x in ReadEnvFile(EnvFileText(a)) <==> x in EnvKeys
    ensures forall k :: 0 <= k < |EnvKeys| ==> ReadEnvFile(EnvFileText(a))[EnvKeys[k]] == Config.Text(Values(a)[k])
  {
    var ls := Assignments(a);
    EnvFileLines(a);
    EnvKeysWellFormed();
    var m0: Config.Env := map[];
    assert ReadEnvLine(m0, "") == m0;
    ReadEnvLinesAppend(m0, [""] + ls, [""]);
    ReadEnvLinesAppend(m0, [""], ls);
    ReadAssignments(m0, EnvKeys, Values(a), ls);
  }

  /**
    With the installed file read as `ReadEnvFile` reads it, the six template
    answers become the template fields, and the server listens on the
    installed address when it parses.
   */
  lemma InstalledAnswersReachServer<S>(a: Answers, build: Config.BuildInfo, remote: RemoteAddress.RemoteAddr, parse: string -> Option<S>)
    requires NoNewlines(a)
    requires parse(Config.DefaultListenAddr).Some?
    ensures var t := Config.NewIndexTemplate(ReadEnvFile(EnvFileText(a)), build, remote);
      && t.asn == a.asNumber && t.asName == a.asName && t.routerDomain == a.routerDomain
      && t.routerId == a.routerId && t.addressV4 == a.addressV4 && t.addressV6 == a.addressV6
    ensures parse(a.listenAddr).Some? ==> Config.ListenAddr(ReadEnvFile(EnvFileText(a)), parse) == parse(a.listenAddr).value
  {
    EnvFileRoundTrip(a);
    var env := ReadEnvFile(EnvFileText(a));
    assert env[EnvKeys[0]] == Config.Text(a.listenAddr);
    assert env[EnvKeys[1]] == Config.Text(a.asNumber);
    assert env[EnvKeys[2]] == Config.Text(a.asName);
    assert env[EnvKeys[3]] == Config.Text(a.routerDomain);
    assert env[EnvKeys[4]] == Config.Text(a.routerId);
    assert env[EnvKeys[5]] == Config.Text(a.addressV4);
    assert env[EnvKeys[6]] == Config.Text(a.addressV6);
  }
}
