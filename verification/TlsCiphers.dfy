/** The cipher list of a TLS application context, remembered between calls. */
module TlsCiphers {
  import opened Machine
  import opened Tokens

  const CIPHER_NONE: int := 0
  const CIPHER_NULL: int := 1
  const CIPHER_EXPORT: int := 2
  const CIPHER_LOW: int := 3
  const CIPHER_MEDIUM: int := 4
  const CIPHER_HIGH: int := 5

  const CIPHER_SEP: string := "\t\n\r ,:"

  /** name_code on the grade table: names compare without regard to case; any other name is no grade. */
  function GradeOf(name: string): int {
    var n := Lower(name);
    if n == "high" then CIPHER_HIGH
    else if n == "medium" then CIPHER_MEDIUM
    else if n == "low" then CIPHER_LOW
    else if n == "export" then CIPHER_EXPORT
    else if n == "null" then CIPHER_NULL
    else CIPHER_NONE
  }

  // A cipher family to probe: whether libcrypto has the algorithm, and what libssl lists under the family's name.
  datatype Suite = Suite(name: string, bits: int)
  datatype Probe = Probe(bits: int, available: bool, suites: seq<Suite>)

  // The settings and the libraries, fixed while the process runs. accepts is SSL_CTX_set_cipher_list.
  datatype Config = Config(
    high: string, medium: string, low: string, export_: string, null_: string,
    probes: seq<Probe>, accepts: string -> bool)

  function BaseList(cfg: Config, grade: int): string {
    if grade == CIPHER_HIGH then cfg.high
    else if grade == CIPHER_MEDIUM then cfg.medium
    else if grade == CIPHER_LOW then cfg.low
    else if grade == CIPHER_EXPORT then cfg.export_
    else cfg.null_
  }

  function NamesOfSize(suites: seq<Suite>, bits: int): seq<string> {
    if suites == [] then []
    else (if suites[0].bits == bits then [suites[0].name] else []) + NamesOfSize(suites[1..], bits)
  }

  /** Suites of a key size that libssl lists but libcrypto lacks. */
  function Missing(probes: seq<Probe>): seq<string> {
    if probes == [] then []
    else (if probes[0].available then [] else NamesOfSize(probes[0].suites, probes[0].bits)) + Missing(probes[1..])
  }

  function Excluding(names: seq<string>): string {
    if names == [] then "" else Excluding(names[..|names| - 1]) + ":!" + names[|names| - 1]
  }

  predicate Modified(tok: string) {
    tok != [] && tok[0] in "!+-@"
  }

  /** The first token that starts with a modifier, or the number of tokens. */
  function FirstModified(toks: seq<string>): (i: nat)
    ensures i <= |toks|
    ensures i < |toks| ==> Modified(toks[i])
    ensures forall k :: 0 <= k < i ==> !Modified(toks[k])
  {
    if toks == [] || Modified(toks[0]) then 0 else 1 + FirstModified(toks[1..])
  }

  datatype Answer =
    | List(list: string)
    | BadGrade
    | EmptyBase
    | BadExclusion(token: string)
    | Rejected(list: string)

  function FullList(cfg: Config, grade: int, exclusions: string): string {
    BaseList(cfg, grade) + Excluding(Split(exclusions, CIPHER_SEP)) + Excluding(Missing(cfg.probes))
  }

  /** What a grade and exclusions give when nothing is remembered. */
  function Compute(cfg: Config, grade: int, exclusions: string): Answer {
    var toks := Split(exclusions, CIPHER_SEP);
    if BaseList(cfg, grade) == "" then EmptyBase
    else if FirstModified(toks) < |toks| then BadExclusion(toks[FirstModified(toks)])
    else if cfg.accepts(FullList(cfg, grade, exclusions)) then List(FullList(cfg, grade, exclusions))
    else Rejected(FullList(cfg, grade, exclusions))
  }

  /** What a fresh context answers. */
  function Fresh(cfg: Config, grade: string, exclusions: string): Answer {
    if GradeOf(grade) == CIPHER_NONE then BadGrade else Compute(cfg, GradeOf(grade), exclusions)
  }

  // ---------- what a list says ----------

  lemma GradeNames(name: string)
    ensures GradeOf(name) == CIPHER_HIGH <==> IgnoringCase(name, "high")
    ensures GradeOf(name) == CIPHER_MEDIUM <==> IgnoringCase(name, "medium")
    ensures GradeOf(name) == CIPHER_LOW <==> IgnoringCase(name, "low")
    ensures GradeOf(name) == CIPHER_EXPORT <==> IgnoringCase(name, "export")
    ensures GradeOf(name) == CIPHER_NULL <==> IgnoringCase(name, "null")
    ensures GradeOf(name) == CIPHER_NONE <==> forall g :: g in ["high", "medium", "low", "export", "null"] ==> !IgnoringCase(name, g)
  {
    assert Lower("high") == "high" && Lower("medium") == "medium" && Lower("low") == "low";
    assert Lower("export") == "export" && Lower("null") == "null";
    LowerIff(name, "high");
    LowerIff(name, "medium");
    LowerIff(name, "low");
    LowerIff(name, "export");
    LowerIff(name, "null");
  }

  /** Every grade selects its own configured list, in any case of its letters; any other name is an error. */
  lemma GradeSelects(cfg: Config, grade: string, exclusions: string)
    ensures var a := Fresh(cfg, grade, exclusions);
            && (a.List? ==>
                && (IgnoringCase(grade, "high") ==> cfg.high <= a.list)
                && (IgnoringCase(grade, "medium") ==> cfg.medium <= a.list)
                && (IgnoringCase(grade, "low") ==> cfg.low <= a.list)
                && (IgnoringCase(grade, "export") ==> cfg.export_ <= a.list)
                && (IgnoringCase(grade, "null") ==> cfg.null_ <= a.list))
            && (a == BadGrade <==>
                forall g :: g in ["high", "medium", "low", "export", "null"] ==> !IgnoringCase(grade, g))
  {
    GradeNames(grade);
    hide GradeOf;
    hide IgnoringCase;
  }

  function Banned(names: seq<string>): (r: seq<string>)
    ensures |r| == |names|
  {
    seq(|names|, i requires 0 <= i < |names| => "!" + names[i])
  }

  lemma {:induction false} ExcludingStarts(names: seq<string>)
    ensures Excluding(names) != "" ==> Excluding(names)[0] == ':'
  {
    if names != [] {
      ExcludingStarts(names[..|names| - 1]);
    }
  }

  /** Split at its colons, a list of exclusions is the names, each behind an exclamation mark. */
  lemma {:induction false} ExcludingSpells(names: seq<string>)
    requires AreWords(names, ":")
    ensures Split(Excluding(names), ":") == Banned(names)
  {
    if names != [] {
      var front, last := names[..|names| - 1], names[|names| - 1];
      ExcludingSpells(front);
      assert Excluding(names) == Excluding(front) + ([':'] + ("!" + last)) by {
        assert Excluding(front) + ":!" + last == Excluding(front) + ([':'] + ("!" + last));
      }
      assert DelimiterFree("!" + last, ":");
      SplitAtDelimiter(Excluding(front), ':', "!" + last, ":");
      SplitWord("!" + last, ":");
      assert Banned(names) == Banned(front) + ["!" + last];
    }
  }

  /** Behind the grade's list come the exclusions of the caller and then the ciphers that are missing, each banned by
      name; and no exclusion of the caller starts with a modifier. */
  lemma ListSpells(cfg: Config, grade: string, exclusions: string)
    requires AreWords(Missing(cfg.probes), ":")
    ensures var a := Fresh(cfg, grade, exclusions);
            a.List? ==>
              var base, toks := BaseList(cfg, GradeOf(grade)), Split(exclusions, CIPHER_SEP);
              && base <= a.list && cfg.accepts(a.list)
              && Split(a.list[|base|..], ":") == Banned(toks) + Banned(Missing(cfg.probes))
              && forall i :: 0 <= i < |toks| ==> toks[i] != "" && toks[i][0] !in "!+-@"
  {
    var a := Fresh(cfg, grade, exclusions);
    if a.List? {
      hide Missing;
      var base, toks, missing := BaseList(cfg, GradeOf(grade)), Split(exclusions, CIPHER_SEP), Missing(cfg.probes);
      SplitGivesWords(exclusions, CIPHER_SEP);
      WordsOfFewer(toks);
      assert a.list[|base|..] == Excluding(toks) + Excluding(missing);
      ExcludingStarts(missing);
      SplitInTwo(Excluding(toks), Excluding(missing), ":");
      ExcludingSpells(toks);
      ExcludingSpells(missing);
      forall i | 0 <= i < |toks| ensures toks[i] != "" && toks[i][0] !in "!+-@" {
        assert !Modified(toks[i]);
      }
    }
  }

  /** Which error comes first: the grade, then an empty list of the grade, then the first exclusion with a modifier, then
      what SSL_CTX_set_cipher_list says. */
  lemma WhichError(cfg: Config, grade: string, exclusions: string, tok: string)
    ensures var a, toks := Fresh(cfg, grade, exclusions), Split(exclusions, CIPHER_SEP);
            && (a == EmptyBase <==> GradeOf(grade) != CIPHER_NONE && BaseList(cfg, GradeOf(grade)) == "")
            && (a == BadExclusion(tok) ==> tok in toks && Modified(tok))
            && (a.BadExclusion? <==>
                && GradeOf(grade) != CIPHER_NONE && BaseList(cfg, GradeOf(grade)) != ""
                && exists i :: 0 <= i < |toks| && Modified(toks[i]))
            && (a.Rejected? ==> !cfg.accepts(a.list) && forall i :: 0 <= i < |toks| ==> !Modified(toks[i]))
  {
    hide GradeOf;
    hide BaseList;
    hide FullList;
  }

  lemma WordsOfFewer(toks: seq<string>)
    requires AreWords(toks, CIPHER_SEP)
    ensures AreWords(toks, ":")
  {
    assert CIPHER_SEP[5] == ':';
    forall i | 0 <= i < |toks| ensures DelimiterFree(toks[i], ":") {
      assert DelimiterFree(toks[i], CIPHER_SEP);
    }
  }

  lemma {:induction false} OfSizeIff(suites: seq<Suite>, bits: int, name: string)
    ensures name in NamesOfSize(suites, bits) <==> exists i :: 0 <= i < |suites| && suites[i] == Suite(name, bits)
  {
    if suites != [] {
      var rest := suites[1..];
      OfSizeIff(rest, bits, name);
      assert forall i :: 0 <= i < |rest| ==> rest[i] == suites[i + 1];
      if i :| 0 <= i < |suites| && suites[i] == Suite(name, bits) {
        assert i > 0 ==> rest[i - 1] == suites[i];
      }
    }
  }

  /** A cipher is missing iff some family that libcrypto lacks lists it at the key size of its probe. */
  lemma {:induction false} MissingIff(probes: seq<Probe>, name: string)
    ensures name in Missing(probes) <==>
      exists p, i :: 0 <= p < |probes| && 0 <= i < |probes[p].suites| && !probes[p].available
                     && probes[p].suites[i] == Suite(name, probes[p].bits)
  {
    if probes != [] {
      var rest := probes[1..];
      MissingIff(rest, name);
      OfSizeIff(probes[0].suites, probes[0].bits, name);
      assert forall p :: 0 <= p < |rest| ==> rest[p] == probes[p + 1];
      if p, i :| 0 <= p < |probes| && 0 <= i < |probes[p].suites| && !probes[p].available
                 && probes[p].suites[i] == Suite(name, probes[p].bits) {
        assert p > 0 ==> rest[p - 1] == probes[p];
      }
    }
  }

  // ---------- the remembered state ----------

  datatype State = State(grade: int, exclusions: Option<string>, list: Option<string>, installed: string)

  /** A call, with the list that a failing SSL_CTX_set_cipher_list would leave behind. */
  datatype Call = Call(grade: string, exclusions: string, leftover: string)

  predicate Remembers(s: State, call: Call) {
    s.list.Some? && GradeOf(call.grade) == s.grade && s.exclusions == Some(call.exclusions)
  }

  function SetCiphers(cfg: Config, s: State, call: Call): (State, Answer) {
    if GradeOf(call.grade) == CIPHER_NONE then (s, BadGrade)
    else if Remembers(s, call) then (s, List(s.list.value))
    else
      var flushed := if s.list.Some? then State(CIPHER_NONE, None, None, s.installed) else s;
      var answer := Compute(cfg, GradeOf(call.grade), call.exclusions);
      match answer
      case List(list) => (State(GradeOf(call.grade), Some(call.exclusions), Some(list), list), answer)
      case Rejected(_) => (flushed.(installed := call.leftover), answer)
      case _ => (flushed, answer)
  }

  /** Whatever is remembered is installed, and is what its grade and exclusions compute to. */
  ghost predicate Consistent(cfg: Config, s: State) {
    s.list.Some? ==>
      && s.installed == s.list.value
      && s.grade != CIPHER_NONE && s.exclusions.Some?
      && Compute(cfg, s.grade, s.exclusions.value) == List(s.list.value)
  }

  lemma SetIsFresh(cfg: Config, s: State, call: Call)
    requires Consistent(cfg, s)
    ensures var (s', answer) := SetCiphers(cfg, s, call);
            && Consistent(cfg, s')
            && answer == Fresh(cfg, call.grade, call.exclusions)
            && (answer.List? ==> s'.list == Some(answer.list) && s'.installed == answer.list)
  {
  }

  /** A call that succeeded is remembered: the same grade, in any case, and the same exclusions are answered again without
      looking at the settings or the libraries, and nothing is installed again. */
  lemma SecondCallIsRemembered(cfg: Config, s: State, call: Call, cfg': Config, call': Call)
    requires SetCiphers(cfg, s, call).1.List?
    requires Lower(call'.grade) == Lower(call.grade) && call'.exclusions == call.exclusions
    ensures SetCiphers(cfg', SetCiphers(cfg, s, call).0, call') == SetCiphers(cfg, s, call)
  {
  }

  /** After an error nothing is remembered, unless the grade itself was wrong, which changes nothing. Only a list that
      SSL_CTX_set_cipher_list rejects touches what is installed. */
  lemma ErrorForgets(cfg: Config, s: State, call: Call)
    ensures var (s', answer) := SetCiphers(cfg, s, call);
            && (answer == BadGrade ==> s' == s)
            && (!answer.List? && answer != BadGrade ==> s'.list == None)
            && (!answer.List? ==> s'.installed == if answer.Rejected? then call.leftover else s.installed)
            && (answer.Rejected? ==> !cfg.accepts(answer.list))
  {
  }

  function Answers(cfg: Config, s: State, calls: seq<Call>): (r: seq<Answer>)
    ensures |r| == |calls|
    decreases |calls|
  {
    if calls == [] then []
    else
      var (s', answer) := SetCiphers(cfg, s, calls[0]);
      [answer] + Answers(cfg, s', calls[1..])
  }

  function AfterCalls(cfg: Config, s: State, calls: seq<Call>): State
    decreases |calls|
  {
    if calls == [] then s else AfterCalls(cfg, SetCiphers(cfg, s, calls[0]).0, calls[1..])
  }

  /** Every call of every sequence of calls answers like a fresh context, and what is remembered stays installed. */
  lemma {:induction false} RememberingIsInvisible(cfg: Config, s: State, calls: seq<Call>)
    requires Consistent(cfg, s)
    ensures Consistent(cfg, AfterCalls(cfg, s, calls))
    ensures forall i :: 0 <= i < |calls| ==>
      Answers(cfg, s, calls)[i] == Fresh(cfg, calls[i].grade, calls[i].exclusions)
    decreases |calls|
  {
    if calls != [] {
      SetIsFresh(cfg, s, calls[0]);
      RememberingIsInvisible(cfg, SetCiphers(cfg, s, calls[0]).0, calls[1..]);
    }
  }

  // ---------- the code ----------

  lemma ExcludingSnoc(names: seq<string>, i: nat)
    requires i < |names|
    ensures Excluding(names[..i + 1]) == Excluding(names[..i]) + ":!" + names[i]
  {
    assert names[..i + 1][..i] == names[..i];
  }

  method AppendExclusions(buf: string, names: seq<string>) returns (r: string)
    ensures r == buf + Excluding(names)
  {
    r := buf;
    for i := 0 to |names|
      invariant r == buf + Excluding(names[..i])
    {
      ExcludingSnoc(names, i);
      r := r + ":!" + names[i];
    }
    assert names[..|names|] == names;
  }

  /** Appends the tokens up to the first one that starts with a modifier. */
  method AppendTokens(buf: string, toks: seq<string>) returns (bad: nat, r: string)
    ensures bad == FirstModified(toks)
    ensures bad == |toks| ==> r == buf + Excluding(toks)
  {
    r := buf;
    for i := 0 to |toks|
      invariant r == buf + Excluding(toks[..i])
      invariant forall k :: 0 <= k < i ==> !Modified(toks[k])
    {
      if Modified(toks[i]) {
        return i, r;
      }
      ExcludingSnoc(toks, i);
      r := r + ":!" + toks[i];
    }
    assert toks[..|toks|] == toks;
    bad := |toks|;
  }

  lemma NamesStep(names: seq<string>, suites: seq<Suite>, i: nat, bits: int)
    requires i < |suites|
    ensures names + NamesOfSize(suites[i..], bits)
         == (if suites[i].bits == bits then names + [suites[i].name] else names) + NamesOfSize(suites[i + 1..], bits)
  {
    assert suites[i..][1..] == suites[i + 1..];
    var later := NamesOfSize(suites[i + 1..], bits);
    assert names + ([suites[i].name] + later) == (names + [suites[i].name]) + later;
    assert names + ([] + later) == names + later;
  }

  method CollectOfSize(suites: seq<Suite>, bits: int) returns (names: seq<string>)
    ensures names == NamesOfSize(suites, bits)
  {
    names := [];
    assert names + NamesOfSize(suites[0..], bits) == NamesOfSize(suites, bits);
    for i := 0 to |suites|
      invariant names + NamesOfSize(suites[i..], bits) == NamesOfSize(suites, bits)
    {
      hide *;
      NamesStep(names, suites, i, bits);
      if suites[i].bits == bits {
        names := names + [suites[i].name];
      }
    }
    assert names + NamesOfSize([], bits) == names;
  }

  lemma MissingStep(names: seq<string>, probes: seq<Probe>, p: nat)
    requires p < |probes|
    ensures names + Missing(probes[p..])
         == (if probes[p].available then names else names + NamesOfSize(probes[p].suites, probes[p].bits))
            + Missing(probes[p + 1..])
  {
    assert probes[p..][1..] == probes[p + 1..];
    var more, later := NamesOfSize(probes[p].suites, probes[p].bits), Missing(probes[p + 1..]);
    assert names + (more + later) == (names + more) + later;
    assert names + ([] + later) == names + later;
  }

  method CollectMissing(probes: seq<Probe>) returns (names: seq<string>)
    ensures names == Missing(probes)
  {
    names := [];
    assert names + Missing(probes[0..]) == Missing(probes);
    for p := 0 to |probes|
      invariant names + Missing(probes[p..]) == Missing(probes)
    {
      hide *;
      MissingStep(names, probes, p);
      if !probes[p].available {
        var more := CollectOfSize(probes[p].suites, probes[p].bits);
        names := names + more;
      }
    }
    assert names + Missing([]) == names;
  }

  class TlsApplState {
    var cipherGrade: int
    var cipherExclusions: Option<string>
    var cipherList: Option<string>
    var installed: string
    // The per-thread cache of tls_exclude_missing.
    var exclude: Option<seq<string>>

    ghost function Value(): State
      reads this
    {
      State(cipherGrade, cipherExclusions, cipherList, installed)
    }

    ghost predicate ExcludeValid(cfg: Config)
      reads this
    {
      exclude.Some? ==> exclude.value == Missing(cfg.probes)
    }

    constructor (installed: string)
      ensures Value() == State(CIPHER_NONE, None, None, installed) && exclude == None
    {
      cipherGrade, cipherExclusions, cipherList := CIPHER_NONE, None, None;
      this.installed := installed;
      exclude := None;
    }

    /** Appends ":!name" for every missing cipher; the names are collected on the first call only. */
    method ExcludeMissing(cfg: Config, buf: string) returns (r: string)
      requires ExcludeValid(cfg)
      modifies this`exclude
      ensures ExcludeValid(cfg) && r == buf + Excluding(Missing(cfg.probes))
    {
      if exclude.None? {
        var names := CollectMissing(cfg.probes);
        exclude := Some(names);
      }
      r := AppendExclusions(buf, exclude.value);
    }

    method Set(cfg: Config, call: Call) returns (answer: Answer)
      requires ExcludeValid(cfg)
      modifies this
      ensures ExcludeValid(cfg)
      ensures (Value(), answer) == SetCiphers(cfg, old(Value()), call)
    {
      var newGrade := GradeOf(call.grade);
      if newGrade == CIPHER_NONE {
        return BadGrade;
      }
      if cipherList.Some? {
        if newGrade == cipherGrade && cipherExclusions == Some(call.exclusions) {
          return List(cipherList.value);
        }
        cipherGrade, cipherExclusions, cipherList := CIPHER_NONE, None, None;
      }
      var buf := BaseList(cfg, newGrade);
      if buf == "" {
        return EmptyBase;
      }
      var toks := Split(call.exclusions, CIPHER_SEP);
      var bad;
      bad, buf := AppendTokens(buf, toks);
      if bad < |toks| {
        return BadExclusion(toks[bad]);
      }
      buf := ExcludeMissing(cfg, buf);
      if !cfg.accepts(buf) {
        installed := call.leftover;
        return Rejected(buf);
      }
      installed := buf;
      cipherGrade, cipherExclusions, cipherList := newGrade, Some(call.exclusions), Some(buf);
      return List(buf);
    }
  }
}
