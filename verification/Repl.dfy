/** The policy playground: a subject driven by command lines. */
module Repl {
  import opened Wrappers
  import opened Text
  import opened Cel

  datatype Command =
    | EndOfInput
    | Nothing
    | Expression(text: string)
    | SetUser(value: string)
    | SetGroups(groups: seq<string>)
    | SetEmail(value: string)
    | SetName(value: string)
    | Help
    | Show
    | Reset
    | Quit
    | Unknown(text: string)

  function TrimAll(parts: seq<string>): (r: seq<string>)
    ensures |r| == |parts|
    ensures forall i :: 0 <= i < |parts| ==> r[i] == Trim(parts[i])
  {
    seq(|parts|, i requires 0 <= i < |parts| => Trim(parts[i]))
  }

  /** The comma-separated list of a `:groups` command. */
  function GroupsOf(rest: string): seq<string> {
    TrimAll(Split(rest, ','))
  }

  function WordCommand(word: string): Command {
    if word == "help" then Help
    else if word == "subject" then Show
    else if word == "reset" then Reset
    else if word == "quit" || word == "exit" then Quit
    else Unknown(word)
  }

  /** A word, a blank and an argument; anything else is one word. */
  function Dispatch(cmd: string, cut: Option<(string, string)>): Command {
    match cut
    case None => WordCommand(Trim(cmd))
    case Some((word, rest)) =>
      if word == "user" then SetUser(Trim(rest))
      else if word == "groups" then SetGroups(GroupsOf(rest))
      else if word == "email" then SetEmail(Trim(rest))
      else if word == "name" then SetName(Trim(rest))
      else WordCommand(Trim(cmd))
  }

  function ParseInput(input: string): Command {
    if input == [] then Nothing
    else if input[0] != ':' then Expression(input)
    else Dispatch(input[1..], SplitOnceBlank(input[1..]))
  }

  /** What a read line asks for. End of input reads as an empty line, and no other line
      is empty. */
  function ParseLine(line: string): Command {
    if line == [] then EndOfInput else ParseInput(Trim(line))
  }

  function ParseLines(lines: seq<string>): (cs: seq<Command>)
    ensures |cs| == |lines|
    ensures forall i :: 0 <= i < |cs| ==> cs[i] == ParseLine(lines[i])
  {
    seq(|lines|, i requires 0 <= i < |lines| => ParseLine(lines[i]))
  }

  function Apply(s: Subject, c: Command): Subject {
    match c
    case SetUser(v) => s.(username := v)
    case SetGroups(gs) => s.(groups := gs)
    case SetEmail(v) => s.(email := v)
    case SetName(v) => s.(name := v)
    case Reset => SAMPLE
    case _ => s
  }

  predicate Stops(c: Command) {
    c.Quit? || c.EndOfInput?
  }

  function Final(s: Subject, cs: seq<Command>): Subject
    decreases |cs|
  {
    if cs == [] || Stops(cs[0]) then s else Final(Apply(s, cs[0]), cs[1..])
  }

  class Playground {
    var subject: Subject
    var line: string

    constructor ()
      ensures subject == Subject("sample@example.com", ["users", "admins"], "Sample User", "sample@example.com")
    {
      subject := SAMPLE;
      line := [];
    }

    /** The two nested matches on a command. */
    method Carry(cmd: string, cut: Option<(string, string)>) returns (stop: bool)
      modifies `subject
      ensures stop == Stops(Dispatch(cmd, cut))
      ensures subject == Apply(old(subject), Dispatch(cmd, cut))
    {
      match cut {
        case Some(("user", rest)) => subject := subject.(username := Trim(rest));
        case Some(("groups", rest)) => subject := subject.(groups := GroupsOf(rest));
        case Some(("email", rest)) => subject := subject.(email := Trim(rest));
        case Some(("name", rest)) => subject := subject.(name := Trim(rest));
        case _ =>
          var word := Trim(cmd);
          if word == "reset" {
            subject := SAMPLE;
          } else if word == "quit" || word == "exit" {
            return true;
          }
      }
      return false;
    }

    /** One turn of the loop: the buffer is cleared and refilled, then dispatched on. */
    method Step(read: string) returns (stop: bool)
      modifies this
      ensures stop == Stops(ParseLine(read))
      ensures subject == Apply(old(subject), ParseLine(read))
      ensures line == read
    {
      line := [];
      line := line + read;
      assert line == read;
      if read == [] {
        return true;
      }
      var input := Trim(line);
      if input == [] || input[0] != ':' {
        return false;
      }
      var cmd := input[1..];
      stop := Carry(cmd, SplitOnceBlank(cmd));
    }

    /** The whole session; it also ends when no line can be read any more. */
    method Loop(lines: seq<string>)
      modifies this
      ensures subject == Final(old(subject), ParseLines(lines))
    {
      hide ParseLine;
      var i := 0;
      ghost var cs := ParseLines(lines);
      while i < |lines|
        invariant i <= |lines|
        invariant Final(subject, cs[i..]) == Final(old(subject), cs)
      {
        assert cs[i..][0] == ParseLine(lines[i]) && cs[i..][1..] == cs[i + 1..];
        var stop := Step(lines[i]);
        if stop {
          return;
        }
        i := i + 1;
      }
    }
  }

  // ----- what a run amounts to -----

  /** How many commands are carried out before the loop ends. */
  function Executed(cs: seq<Command>): (n: nat)
    ensures n <= |cs|
    ensures n < |cs| ==> Stops(cs[n])
    ensures forall i :: 0 <= i < n ==> !Stops(cs[i])
  {
    if cs == [] || Stops(cs[0]) then 0 else 1 + Executed(cs[1..])
  }

  datatype Part = Username | Groups | Email | Name

  datatype PartValue = One(text: string) | Many(texts: seq<string>)

  function PartOf(s: Subject, f: Part): PartValue {
    match f
    case Username => One(s.username)
    case Groups => Many(s.groups)
    case Email => One(s.email)
    case Name => One(s.name)
  }

  /** What a command stores in a part of the subject, if it stores anything. */
  function Stored(c: Command, f: Part): Option<PartValue> {
    match (c, f)
    case (SetUser(v), Username) => Some(One(v))
    case (SetGroups(gs), Groups) => Some(Many(gs))
    case (SetEmail(v), Email) => Some(One(v))
    case (SetName(v), Name) => Some(One(v))
    case (Reset, _) => Some(PartOf(SAMPLE, f))
    case _ => None
  }

  lemma ApplyStores(s: Subject, c: Command, f: Part)
    ensures PartOf(Apply(s, c), f) == if Stored(c, f).Some? then Stored(c, f).value else PartOf(s, f)
  {
  }

  /** The last carried-out command that stores in the part is the one at `k`; -1 for none. */
  predicate LastStore(cs: seq<Command>, f: Part, k: int) {
    && -1 <= k < Executed(cs)
    && (k >= 0 ==> Stored(cs[k], f).Some?)
    && forall j :: k < j < Executed(cs) ==> Stored(cs[j], f).None?
  }

  /** After any lines, each part of the subject is what its last setter or reset before
      the end of the run stored, else what it was; expressions, unknown commands and
      everything after `:quit` leave it alone. */
  lemma {:induction false} RunMeans(s: Subject, cs: seq<Command>, f: Part, k: int)
    requires LastStore(cs, f, k)
    ensures PartOf(Final(s, cs), f) == if k >= 0 then Stored(cs[k], f).value else PartOf(s, f)
    decreases |cs|
  {
    if cs != [] && !Stops(cs[0]) {
      var rest, m := cs[1..], if k >= 1 then k - 1 else -1;
      assert forall j :: 0 <= j < |rest| ==> rest[j] == cs[j + 1];
      assert LastStore(rest, f, m);
      ApplyStores(s, cs[0], f);
      RunMeans(Apply(s, cs[0]), rest, f, m);
    }
  }

  // ----- what can be reached -----

  predicate TextOk(v: string) {
    v != [] && Trimmed(v) && '\n' !in v
  }

  /** A list of groups that can be typed in. */
  predicate Typeable(gs: seq<string>) {
    gs != [] && gs != [[]] && forall i :: 0 <= i < |gs| ==> Trimmed(gs[i]) && ',' !in gs[i]
  }

  predicate GroupsOk(gs: seq<string>) {
    Typeable(gs) && forall i :: 0 <= i < |gs| ==> '\n' !in gs[i]
  }

  predicate SubjectOk(s: Subject) {
    TextOk(s.username) && GroupsOk(s.groups) && TextOk(s.email) && TextOk(s.name)
  }

  /** What reading a line can deliver: a line feed only at its end. */
  predicate IsLine(line: string) {
    line != [] && '\n' !in line[..|line| - 1]
  }

  lemma TrimWithin(s: string, c: char)
    requires c !in s
    ensures c !in Trim(s)
  {
    var l, r := TrimCuts(s);
    assert forall x :: x in s <==> x in l || x in Trim(s) || x in r;
  }

  lemma TrimmedLine(line: string)
    requires IsLine(line)
    ensures '\n' !in Trim(line)
  {
    var l, r := TrimCuts(line);
    var t := Trim(line);
    forall i | 0 <= i < |t|
      ensures t[i] != '\n'
    {
      assert line[|l| + i] == t[i];
      if |l| + i < |line| - 1 {
        assert line[|l| + i] in line[..|line| - 1];
      }
    }
  }

  /** What an argument looks like: the end of a trimmed line. */
  predicate EndsLine(rest: string) {
    rest != [] && !IsWhitespace(rest[|rest| - 1])
  }

  /** What follows the command word ends the trimmed line, so it is never blank. */
  lemma CutEnds(input: string)
    requires input != [] && Trimmed(input)
    requires SplitOnceBlank(input[1..]).Some?
    ensures var rest := SplitOnceBlank(input[1..]).value.1;
            EndsLine(rest) && forall x :: x in rest ==> x in input
  {
    var cmd := input[1..];
    var rest := cmd[FindBlank(cmd) + 1..];
    assert cmd[|cmd| - 1] == input[|input| - 1];
    assert rest[|rest| - 1] == input[|input| - 1];
  }

  lemma {:induction false} TrimStartKeepsEnd(s: string)
    requires s != [] && !IsWhitespace(s[|s| - 1])
    ensures TrimStart(s) != [] && TrimStart(s)[|TrimStart(s)| - 1] == s[|s| - 1]
  {
    if IsWhitespace(s[0]) {
      TrimStartKeepsEnd(s[1..]);
    }
  }

  lemma TrimNonblank(s: string)
    requires s != [] && !IsWhitespace(s[|s| - 1])
    ensures Trim(s) != []
  {
    TrimStartKeepsEnd(s);
  }

  lemma ArgumentTextOk(rest: string)
    requires EndsLine(rest) && '\n' !in rest
    ensures TextOk(Trim(rest))
  {
    TrimNonblank(rest);
    TrimWithin(rest, '\n');
  }

  lemma GroupsTypeable(rest: string)
    requires EndsLine(rest)
    ensures Typeable(GroupsOf(rest))
  {
    hide Trim;
    var parts := Split(rest, ',');
    forall i | 0 <= i < |parts|
      ensures ',' !in Trim(parts[i])
    {
      TrimWithin(parts[i], ',');
    }
    if |parts| == 1 {
      SplitSingle(rest, ',');
      TrimNonblank(rest);
    }
  }

  lemma GroupsOfOk(rest: string)
    requires EndsLine(rest) && '\n' !in rest
    ensures GroupsOk(GroupsOf(rest))
  {
    GroupsTypeable(rest);
    SplitWithin(rest, ',', '\n');
    forall i | 0 <= i < |GroupsOf(rest)|
      ensures '\n' !in GroupsOf(rest)[i]
    {
      TrimWithin(Split(rest, ',')[i], '\n');
    }
  }

  lemma {:induction false} SplitWithin(s: string, c: char, x: char)
    requires x !in s
    ensures forall i :: 0 <= i < |Split(s, c)| ==> x !in Split(s, c)[i]
  {
    if s != [] {
      assert s == [s[0]] + s[1..];
      SplitWithin(s[1..], c, x);
    }
  }

  lemma {:induction false} SplitSingle(s: string, c: char)
    requires |Split(s, c)| == 1
    ensures Split(s, c)[0] == s
  {
    if s != [] {
      SplitSingle(s[1..], c);
      assert s == [s[0]] + s[1..];
    }
  }

  /** The stored values are well formed. */
  predicate CommandOk(c: Command) {
    match c
    case SetUser(v) => TextOk(v)
    case SetEmail(v) => TextOk(v)
    case SetName(v) => TextOk(v)
    case SetGroups(gs) => GroupsOk(gs)
    case _ => true
  }

  lemma WordOk(word: string)
    ensures CommandOk(WordCommand(word))
  {
  }

  lemma DispatchOk(cmd: string, cut: Option<(string, string)>)
    requires cut.Some? ==> EndsLine(cut.value.1) && '\n' !in cut.value.1
    ensures CommandOk(Dispatch(cmd, cut))
  {
    hide TextOk, GroupsOk, Trim, GroupsOf, WordCommand;
    WordOk(Trim(cmd));
    if cut.Some? {
      ArgumentTextOk(cut.value.1);
      GroupsOfOk(cut.value.1);
    }
  }

  lemma ParseInputOk(input: string)
    requires Trimmed(input) && '\n' !in input
    ensures CommandOk(ParseInput(input))
  {
    if input != [] {
      if SplitOnceBlank(input[1..]).Some? {
        CutEnds(input);
      }
      DispatchOk(input[1..], SplitOnceBlank(input[1..]));
    }
  }

  /** Whatever is typed, only well-formed values are stored. */
  lemma ParseLineOk(line: string)
    requires IsLine(line)
    ensures CommandOk(ParseLine(line))
  {
    TrimmedLine(line);
    ParseInputOk(Trim(line));
  }

  lemma SampleOk()
    ensures SubjectOk(SAMPLE)
  {
    assert SAMPLE.groups[0] == "users" && SAMPLE.groups[1] == "admins";
  }

  lemma {:induction false} RunKeepsOk(s: Subject, cs: seq<Command>)
    requires SubjectOk(s) && forall i :: 0 <= i < |cs| ==> CommandOk(cs[i])
    ensures SubjectOk(Final(s, cs))
    decreases |cs|
  {
    if cs != [] && !Stops(cs[0]) {
      SampleOk();
      assert CommandOk(cs[0]);
      RunKeepsOk(Apply(s, cs[0]), cs[1..]);
    }
  }

  // ----- and everything well formed can be reached -----

  /** A command line as it is typed. */
  function Typed(word: string, argument: string): string {
    [':'] + word + [' '] + argument
  }

  ghost predicate SetterAt(line: string, word: string, v: string, l: string, c: char, m: string, r: string) {
    Blank(l) && IsWhitespace(c) && Blank(m) && Blank(r) && line == l + ":" + word + [c] + m + v + r
  }

  /** The line is a colon, the word, a blank and the argument, and otherwise blank; no
      blank may stand between colon and word. */
  ghost predicate Setter(line: string, word: string, v: string) {
    exists l, c, m, r :: SetterAt(line, word, v, l, c, m, r)
  }

  predicate NoBlank(word: string) {
    forall i :: 0 <= i < |word| ==> !IsWhitespace(word[i])
  }

  lemma SetterReads(line: string, word: string, v: string) returns (c: char, m: string)
    requires Setter(line, word, v) && NoBlank(word) && v != [] && Trimmed(v)
    ensures Blank(m) && ParseLine(line) == Dispatch(word + [c] + (m + v), Some((word, m + v)))
    ensures Trim(m + v) == v
  {
    hide Trim, Dispatch;
    var l, c', m', r :| SetterAt(line, word, v, l, c', m', r);
    c, m := c', m';
    var cmd := word + [c] + (m + v);
    var input := [':'] + cmd;
    assert input[|input| - 1] == v[|v| - 1];
    assert line == l + input + r;
    TrimUnique(l, input, r);
    assert input[1..] == cmd;
    SplitOnceBlankGlued(word, c, m + v);
    TrimUnique(m, v, []);
    assert m + v + [] == m + v;
  }

  lemma CutShape(input: string) returns (c: char)
    requires input != [] && input[0] == ':' && SplitOnceBlank(input[1..]).Some?
    ensures var (word, rest) := SplitOnceBlank(input[1..]).value;
            IsWhitespace(c) && input == ":" + word + [c] + rest
  {
    hide FindBlank;
    var cmd := input[1..];
    c := cmd[FindBlank(cmd)];
    assert input == [':'] + cmd;
  }

  lemma SetterCut(line: string)
    requires var input := Trim(line); input != [] && input[0] == ':' && SplitOnceBlank(input[1..]).Some?
    ensures var (word, rest) := SplitOnceBlank(Trim(line)[1..]).value;
            Setter(line, word, Trim(rest)) && Trim(rest) != []
  {
    hide Trim, SplitOnceBlank;
    var input := Trim(line);
    var (word, rest) := SplitOnceBlank(input[1..]).value;
    var c := CutShape(input);
    CutEnds(input);
    TrimNonblank(rest);
    var l, r := TrimCuts(line);
    var m, n := TrimCuts(rest);
    assert line == l + ":" + word + [c] + m + Trim(rest) + (n + r);
    assert SetterAt(line, word, Trim(rest), l, c, m, n + r);
  }

  lemma TrimSelf(v: string)
    requires Trimmed(v)
    ensures Trim(v) == v
  {
    TrimUnique([], v, []);
    assert [] + v + [] == v;
  }

  /** A line sets the user name to `v` exactly if, blanks aside, it is `:user`, a blank
      and `v`; and likewise for the other two texts. */
  lemma UserIff(line: string, v: string)
    ensures ParseLine(line) == SetUser(v) <==> Setter(line, "user", v) && v != [] && Trimmed(v)
  {
    hide Trim, FindBlank, Setter;
    if Setter(line, "user", v) && v != [] && Trimmed(v) {
      var c, m := SetterReads(line, "user", v);
    }
    if ParseLine(line) == SetUser(v) {
      SetterCut(line);
    }
  }

  lemma EmailIff(line: string, v: string)
    ensures ParseLine(line) == SetEmail(v) <==> Setter(line, "email", v) && v != [] && Trimmed(v)
  {
    hide Trim, FindBlank, Setter;
    if Setter(line, "email", v) && v != [] && Trimmed(v) {
      var c, m := SetterReads(line, "email", v);
    }
    if ParseLine(line) == SetEmail(v) {
      SetterCut(line);
    }
  }

  lemma NameIff(line: string, v: string)
    ensures ParseLine(line) == SetName(v) <==> Setter(line, "name", v) && v != [] && Trimmed(v)
  {
    hide Trim, FindBlank, Setter;
    if Setter(line, "name", v) && v != [] && Trimmed(v) {
      var c, m := SetterReads(line, "name", v);
    }
    if ParseLine(line) == SetName(v) {
      SetterCut(line);
    }
  }

  ghost predicate SpelledAt(line: string, word: string, l: string, m: string, r: string) {
    Blank(l) && Blank(m) && Blank(r) && line == l + ":" + m + word + r
  }

  /** The line is a colon and the word, and otherwise blank. */
  ghost predicate Spelled(line: string, word: string) {
    exists l, m, r :: SpelledAt(line, word, l, m, r)
  }

  lemma CommandSpelled(line: string)
    requires var input := Trim(line); input != [] && input[0] == ':'
    ensures Spelled(line, Trim(Trim(line)[1..]))
  {
    hide Trim;
    var input := Trim(line);
    var l, r := TrimCuts(line);
    var m, n := TrimCuts(input[1..]);
    var word := Trim(input[1..]);
    assert input == [':'] + (m + word + n);
    assert line == l + ":" + m + word + (n + r);
    assert SpelledAt(line, word, l, m, n + r);
  }

  lemma SpelledReads(line: string, word: string)
    requires Spelled(line, word)
    requires word != [] && forall i :: 0 <= i < |word| ==> !IsWhitespace(word[i])
    ensures ParseLine(line) == WordCommand(word)
  {
    hide ParseLine, WordCommand;
    var l, m, r :| SpelledAt(line, word, l, m, r);
    WordLine(l, m, word, r);
  }

  /** What comes out of a word command is spelled out in the line. */
  lemma WordCommandSpelled(line: string)
    requires ParseLine(line).Quit? || ParseLine(line).Reset?
    ensures exists word :: Spelled(line, word) && ParseLine(line) == WordCommand(word)
  {
    hide Trim, FindBlank, WordCommand;
    CommandSpelled(line);
  }

  lemma EndOfInputIff(line: string)
    ensures ParseLine(line).EndOfInput? <==> line == []
  {
    hide Trim, FindBlank, GroupsOf;
  }

  /** A session ends exactly at the end of input or at a line that, blanks aside, is a
      colon and `quit` or `exit`; a line with anything after the word does not end it. */
  lemma {:induction false} StopsIff(line: string)
    ensures Stops(ParseLine(line)) <==> line == [] || Spelled(line, "quit") || Spelled(line, "exit")
  {
    hide ParseLine, Spelled;
    EndOfInputIff(line);
    if Spelled(line, "quit") {
      SpelledReads(line, "quit");
    }
    if Spelled(line, "exit") {
      SpelledReads(line, "exit");
    }
    if ParseLine(line).Quit? {
      WordCommandSpelled(line);
    }
  }

  lemma {:induction false} ResetIff(line: string)
    ensures forall s :: Apply(s, Reset) ==
                        Subject("sample@example.com", ["users", "admins"], "Sample User", "sample@example.com")
    ensures ParseLine(line) == Reset <==> Spelled(line, "reset")
  {
    hide ParseLine, Spelled;
    if Spelled(line, "reset") {
      SpelledReads(line, "reset");
    }
    if ParseLine(line) == Reset {
      WordCommandSpelled(line);
    }
  }

  lemma GroupsOfOneMore(s: string, x: char)
    requires IsWhitespace(x)
    ensures GroupsOf(s + [x]) == GroupsOf(s)
  {
    hide Trim;
    SplitSnoc(s, x, ',');
    var p := Split(s, ',');
    var last := p[|p| - 1];
    TrimPadded([], last, [x]);
    assert [] + last + [x] == last + [x];
  }

  /** Words that take no argument may be indented and spaced at will, even after the
      colon; they are never mistaken for a setter. */
  lemma {:induction false} WordLine(l: string, m: string, word: string, r: string)
    requires Blank(l) && Blank(m) && Blank(r)
    requires word != [] && forall i :: 0 <= i < |word| ==> !IsWhitespace(word[i])
    ensures ParseLine(l + ":" + m + word + r) == WordCommand(word)
  {
    hide Trim, WordCommand;
    var cmd := m + word;
    var input := [':'] + cmd;
    assert input[|input| - 1] == word[|word| - 1];
    assert l + ":" + m + word + r == l + input + r;
    TrimUnique(l, input, r);
    assert input[1..] == cmd;
    TrimUnique(m, word, []);
    assert m + word + [] == cmd;
    if m == [] {
      assert cmd == word;
    } else {
      assert cmd[0] == m[0];
    }
  }

  lemma {:induction false} GroupsOfPadded(s: string, r: string)
    requires Blank(r)
    ensures GroupsOf(s + r) == GroupsOf(s)
  {
    if r == [] {
      assert s + r == s;
    } else {
      var q, x := r[..|r| - 1], r[|r| - 1];
      GroupsOfPadded(s, q);
      GroupsOfOneMore(s + q, x);
      assert s + r == s + q + [x];
    }
  }

  lemma GroupsOfOneBefore(x: char, s: string)
    requires IsWhitespace(x)
    ensures GroupsOf([x] + s) == GroupsOf(s)
  {
    hide Trim;
    var p := Split(s, ',');
    assert ([x] + s)[1..] == s;
    assert Split([x] + s, ',') == [[x] + p[0]] + p[1..];
    TrimPadded([x], p[0], []);
    assert [x] + p[0] + [] == [x] + p[0];
  }

  lemma {:induction false} GroupsOfIndented(m: string, s: string)
    requires Blank(m)
    ensures GroupsOf(m + s) == GroupsOf(s)
  {
    hide GroupsOf;
    if m == [] {
      assert m + s == s;
    } else {
      GroupsOfIndented(m[1..], s);
      GroupsOfOneBefore(m[0], m[1..] + s);
      assert m + s == [m[0]] + (m[1..] + s);
    }
  }

  ghost predicate GroupsSetter(line: string, v: string, gs: seq<string>) {
    Setter(line, "groups", v) && v != [] && Trimmed(v) && GroupsOf(v) == gs
  }

  /** A line sets the groups exactly if, blanks aside, it is `:groups`, a blank and an
      argument that lists them. */
  lemma GroupsIff(line: string, gs: seq<string>)
    ensures ParseLine(line) == SetGroups(gs) <==> exists v :: GroupsSetter(line, v, gs)
  {
    hide Trim, FindBlank, Setter, GroupsOf;
    if v :| GroupsSetter(line, v, gs) {
      var c, m := SetterReads(line, "groups", v);
      GroupsOfIndented(m, v);
    }
    if ParseLine(line) == SetGroups(gs) {
      SetterCut(line);
      var rest := SplitOnceBlank(Trim(line)[1..]).value.1;
      GroupsOfTrim(rest);
      assert GroupsSetter(line, Trim(rest), gs);
    }
  }

  lemma GroupsOfTrim(rest: string)
    ensures GroupsOf(Trim(rest)) == GroupsOf(rest)
  {
    hide Trim, GroupsOf;
    var m, n := TrimCuts(rest);
    assert rest == m + (Trim(rest) + n);
    GroupsOfIndented(m, Trim(rest) + n);
    GroupsOfPadded(Trim(rest), n);
  }

  lemma {:induction false} GroupsOfJoin(gs: seq<string>)
    requires gs != [] && forall i :: 0 <= i < |gs| ==> Trimmed(gs[i]) && ',' !in gs[i]
    ensures GroupsOf(Join(gs, ", ")) == gs
  {
    hide Trim;
    TrimSelf(gs[0]);
    if |gs| == 1 {
      SplitNone(gs[0], ',');
    } else {
      var rest := Join(gs[1..], ", ");
      assert Join(gs, ", ") == gs[0] + [','] + ([' '] + rest);
      SplitHead(gs[0], ',', [' '] + rest);
      GroupsOfOneBefore(' ', rest);
      GroupsOfJoin(gs[1..]);
      assert GroupsOf(Join(gs, ", ")) == [gs[0]] + GroupsOf([' '] + rest);
    }
  }

  lemma NoGroups()
    ensures GroupsOf([]) == [[]]
  {
    assert Split([], ',')[0] == [];
    TrimSelf([]);
  }

  lemma TypedSets(word: string, l: string, v: string, r: string)
    requires Blank(l) && Blank(r)
    ensures Setter(Typed(word, l + v + r), word, v)
  {
    assert Typed(word, l + v + r) == [] + ":" + word + [' '] + l + v + r;
    assert SetterAt(Typed(word, l + v + r), word, v, [], ' ', l, r);
  }

  lemma TypedPlain(word: string, v: string)
    ensures Setter(Typed(word, v), word, v)
  {
    TypedSets(word, [], v, []);
    assert [] + v + [] == v;
  }

  lemma GroupsLine(gs: seq<string>)
    requires Typeable(gs)
    ensures ParseLine(Typed("groups", Join(gs, ", "))) == SetGroups(gs)
  {
    hide Trim, GroupsOf, Join, ParseLine, Typed, Setter;
    var body := Join(gs, ", ");
    var l, r := TrimCuts(body);
    GroupsOfJoin(gs);
    GroupsOfTrim(body);
    NoGroups();
    TypedSets("groups", l, Trim(body), r);
    GroupsIff(Typed("groups", body), gs);
    assert GroupsSetter(Typed("groups", body), Trim(body), gs);
  }

  lemma ParsedGroupsTypeable(line: string)
    requires ParseLine(line).SetGroups?
    ensures Typeable(ParseLine(line).groups)
  {
    hide GroupsOf, FindBlank, Trim;
    CutEnds(Trim(line));
    GroupsTypeable(SplitOnceBlank(Trim(line)[1..]).value.1);
  }

  /** Typing a list joined with ", " sets exactly that list, if and only if it is a
      nonempty list of trimmed comma-free names other than the single empty one. */
  lemma {:induction false} GroupsRoundTripIff(gs: seq<string>)
    ensures ParseLine(Typed("groups", Join(gs, ", "))) == SetGroups(gs) <==> Typeable(gs)
  {
    if Typeable(gs) {
      GroupsLine(gs);
    }
    if ParseLine(Typed("groups", Join(gs, ", "))) == SetGroups(gs) {
      ParsedGroupsTypeable(Typed("groups", Join(gs, ", ")));
    }
  }

  lemma {:induction false} JoinWithin(gs: seq<string>, sep: string, c: char)
    requires c !in sep && forall i :: 0 <= i < |gs| ==> c !in gs[i]
    ensures c !in Join(gs, sep)
  {
    if |gs| > 1 {
      JoinWithin(gs[1..], sep, c);
    }
  }

  lemma LineOf(word: string, argument: string)
    requires '\n' !in word && '\n' !in argument
    ensures IsLine(Typed(word, argument))
  {
    var s := Typed(word, argument);
    assert '\n' !in s;
    assert forall x :: x in s[..|s| - 1] ==> x in s;
  }

  function Script(s: Subject): seq<string> {
    [Typed("user", s.username), Typed("groups", Join(s.groups, ", ")), Typed("email", s.email), Typed("name", s.name)]
  }

  lemma ScriptLines(s: Subject)
    requires SubjectOk(s)
    ensures forall i :: 0 <= i < |Script(s)| ==> IsLine(Script(s)[i])
  {
    JoinWithin(s.groups, ", ", '\n');
    LineOf("user", s.username);
    LineOf("groups", Join(s.groups, ", "));
    LineOf("email", s.email);
    LineOf("name", s.name);
  }

  lemma FinalOfFour(s: Subject, a: Command, b: Command, c: Command, d: Command)
    requires !Stops(a) && !Stops(b) && !Stops(c) && !Stops(d)
    ensures Final(s, [a, b, c, d]) == Apply(Apply(Apply(Apply(s, a), b), c), d)
  {
    assert [a, b, c, d][1..] == [b, c, d] && [b, c, d][1..] == [c, d] && [c, d][1..] == [d] && [d][1..] == [];
    var s1 := Apply(s, a);
    var s2 := Apply(s1, b);
    var s3 := Apply(s2, c);
    assert Final(s3, [d]) == Apply(s3, d);
    assert Final(s2, [c, d]) == Final(s3, [d]);
    assert Final(s1, [b, c, d]) == Final(s2, [c, d]);
  }

  lemma FourLines(t: string, u: string, v: string, w: string)
    ensures ParseLines([t, u, v, w]) == [ParseLine(t), ParseLine(u), ParseLine(v), ParseLine(w)]
  {
    hide ParseLine;
  }

  lemma {:induction false} ScriptReaches(s: Subject)
    requires SubjectOk(s)
    ensures Final(SAMPLE, ParseLines(Script(s))) == s
  {
    hide ParseLine, Typed, Setter;
    var user, email, name := Typed("user", s.username), Typed("email", s.email), Typed("name", s.name);
    TypedPlain("user", s.username);
    TypedPlain("email", s.email);
    TypedPlain("name", s.name);
    UserIff(user, s.username);
    GroupsLine(s.groups);
    EmailIff(email, s.email);
    NameIff(name, s.name);
    var a, b, c, d := SetUser(s.username), SetGroups(s.groups), SetEmail(s.email), SetName(s.name);
    var ls := Script(s);
    FourLines(ls[0], ls[1], ls[2], ls[3]);
    FinalOfFour(SAMPLE, a, b, c, d);
  }

  predicate AllLines(lines: seq<string>) {
    forall i :: 0 <= i < |lines| ==> IsLine(lines[i])
  }

  ghost predicate Reachable(s: Subject) {
    exists lines :: AllLines(lines) && Final(SAMPLE, ParseLines(lines)) == s
  }

  /** The subjects a session can get to are exactly the well-formed ones: nonempty
      trimmed texts and a nonempty list of trimmed comma-free groups. */
  lemma {:induction false} ReachableIff(s: Subject)
    ensures Reachable(s) <==> SubjectOk(s)
  {
    if lines :| AllLines(lines) && Final(SAMPLE, ParseLines(lines)) == s {
      forall i | 0 <= i < |lines|
        ensures CommandOk(ParseLines(lines)[i])
      {
        ParseLineOk(lines[i]);
      }
      SampleOk();
      RunKeepsOk(SAMPLE, ParseLines(lines));
    }
    if SubjectOk(s) {
      ScriptLines(s);
      ScriptReaches(s);
    }
  }
}
