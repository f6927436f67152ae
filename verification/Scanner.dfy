/** The scanner of the query language: a state machine that takes its characters in pieces and
    can stop between any two of them. */
module Scanner {

  /** Operators and punctuation stand for themselves, keywords for the entry of the table they
      match. */
  datatype Token = Sym(s: string) | Keyword(word: string) | Name(text: string) | Text(text: string)
                 | Int(value: nat) | Float(text: string) | Error

  // ---------------------------------------------------------------- what one character does

  /** Start: between tokens.  Pending: after a character that may begin a longer operator.
      Failed: an error has been reported.  Hung: looping on a character it does not consume.
      Crashed: stopped by an assertion of the float parser. */
  datatype Mode = Start | Pending(prev: char) | InName(text: string) | InText(text: string)
                | InInt(text: string) | InFloat(text: string) | Failed | Hung | Crashed

  /** inStmt: whether a statement is open, to hold the strings of its tokens. */
  datatype State = State(mode: Mode, inStmt: bool)

  type Step = (State, seq<Token>)

  const LIMIT := 512
  const I32_MAX := 0x7FFF_FFFF

  const KEYWORDS: seq<string> :=
    ["struct", "union", "enum", "u8", "u16", "u32", "u64", "i8", "i16", "i32", "i64", "f16", "f32", "f64", "f128",
     "cf32", "cf64", "cf128", "cf256", "ci16", "ci32", "ci64", "ci128", "cu16", "cu32", "cu64", "cu128", "true", "false"]
  const OPCODES: seq<string> := ["create", "delete", "insert"]

  predicate IsNum(c: char) {
    '0' <= c <= '9'
  }

  predicate IsAlpha(c: char) {
    'a' <= c <= 'z' || 'A' <= c <= 'Z' || c == '_'
  }

  predicate IsSpace(c: char) {
    c == ' ' || c == '\t' || c == '\r' || c == '\n'
  }

  /** Characters that are a token by themselves, the semicolon aside. */
  predicate IsSingle(c: char) {
    c in "+-/*~^%:[]{}(),"
  }

  /** Characters that a second one may join. */
  predicate IsFirst(c: char) {
    c in "!=><|&"
  }

  predicate Joins(prev: char, c: char) {
    if prev == '&' || prev == '|' then c == prev else c == '='
  }

  function Value(text: string): nat {
    if text == [] then 0
    else 10 * Value(text[..|text| - 1]) + Digit(text[|text| - 1])
  }

  function Digit(c: char): nat {
    if IsNum(c) then c as int - '0' as int else 0
  }

  /** An error: reported once; the open statement is given up. */
  function Fail(): Step {
    (State(Failed, false), [Error])
  }

  function AtStart(inStmt: bool, c: char): Step {
    if IsSpace(c) then (State(Start, inStmt), [])
    else if IsFirst(c) then (State(Pending(c), inStmt), [])
    else if IsSingle(c) then (State(Start, inStmt), [Sym([c])])
    else if c == ';' then (State(Start, false), [Sym([c])])
    else if c == '"' then (State(InText([]), inStmt), [])
    else if IsAlpha(c) then (State(InName([c]), inStmt), [])
    else if IsNum(c) then (State(InInt([c]), inStmt), [])
    else Fail()
  }

  /** A character that finds no token begun. */
  function Plain(s: State, c: char): Step {
    if s.mode.Start? then AtStart(s.inStmt, c)
    else if s.mode.Failed? then (State(if c == ';' then Start else Hung, s.inStmt), [])
    else (s, [])
  }

  function EndName(text: string, inStmt: bool): (r: Step)
    ensures r.0.mode.Start? || r.0.mode.Failed?
  {
    if text in KEYWORDS then (State(Start, inStmt), [Keyword(text)])
    else if text in OPCODES then (State(Start, true), [Keyword(text)])
    else if inStmt then (State(Start, inStmt), [Name(text)])
    else Fail()
  }

  function EndText(text: string, inStmt: bool): (r: Step)
    ensures r.0.mode.Start? || r.0.mode.Failed?
  {
    if inStmt then (State(Start, inStmt), [Text(text)]) else Fail()
  }

  function EndInt(text: string, inStmt: bool): (r: Step)
    ensures r.0.mode.Start? || r.0.mode.Failed?
  {
    if Value(text) <= I32_MAX then (State(Start, inStmt), [Int(Value(text))]) else Fail()
  }

  /** The float parser asserts that its text does not end with the point. */
  function EndFloat(text: string, inStmt: bool, floatOk: string -> bool): (r: Step)
    ensures r.0.mode.Start? || r.0.mode.Failed? || r.0.mode.Crashed?
  {
    if text != [] && text[|text| - 1] == '.' then (State(Crashed, inStmt), [])
    else if floatOk(text) then (State(Start, inStmt), [Float(text)])
    else Fail()
  }

  function EndPending(prev: char, inStmt: bool): (r: Step)
    ensures r.0.mode.Start? || r.0.mode.Failed?
  {
    if prev == '=' then Fail() else (State(Start, inStmt), [Sym([prev])])
  }

  /** The token in progress ends before c. */
  function Then(r: Step, c: char): Step {
    var next := Plain(r.0, c);
    (next.0, r.1 + next.1)
  }

  /** What c does in state s. */
  function OnChar(s: State, c: char, floatOk: string -> bool): Step {
    match s.mode
    case Pending(p) =>
      if Joins(p, c) then (State(Start, s.inStmt), [Sym([p, c])]) else Then(EndPending(p, s.inStmt), c)
    case InName(t) =>
      if !(IsAlpha(c) || IsNum(c)) then Then(EndName(t, s.inStmt), c)
      else if |t| == LIMIT then Fail() else (State(InName(t + [c]), s.inStmt), [])
    case InText(t) =>
      if c == '"' then EndText(t, s.inStmt)
      else if |t| == LIMIT then Fail() else (State(InText(t + [c]), s.inStmt), [])
    case InInt(t) =>
      if !IsNum(c) && c != '.' then Then(EndInt(t, s.inStmt), c)
      else if |t| == LIMIT then Fail()
      else (State(if c == '.' then InFloat(t + [c]) else InInt(t + [c]), s.inStmt), [])
    case InFloat(t) =>
      if !IsNum(c) then Then(EndFloat(t, s.inStmt, floatOk), c)
      else if |t| == LIMIT then Fail() else (State(InFloat(t + [c]), s.inStmt), [])
    case _ => Plain(s, c)
  }

  /** The characters one by one. */
  function Feed(s: State, x: string, floatOk: string -> bool): Step
    decreases |x|
  {
    if x == [] then (s, [])
    else
      var one := OnChar(s, x[0], floatOk);
      var more := Feed(one.0, x[1..], floatOk);
      (more.0, one.1 + more.1)
  }

  /** Feeding in two pieces is feeding the whole: this includes a cut inside a name, a number, a
      string or a two-character operator. */
  lemma {:induction false} FeedTwice(s: State, x: string, y: string, floatOk: string -> bool)
    ensures var a := Feed(s, x, floatOk);
            var b := Feed(a.0, y, floatOk);
            Feed(s, x + y, floatOk) == (b.0, a.1 + b.1)
    decreases |x|
  {
    hide OnChar;
    if x == [] {
      assert x + y == y;
      Grouped(Feed(s, y, floatOk).1, [], []);
    } else {
      assert (x + y)[1..] == x[1..] + y;
      var one := OnChar(s, x[0], floatOk);
      FeedTwice(one.0, x[1..], y, floatOk);
      var a := Feed(one.0, x[1..], floatOk);
      Grouped(one.1, a.1, Feed(a.0, y, floatOk).1);
    }
  }

  lemma Grouped(a: seq<Token>, b: seq<Token>, c: seq<Token>)
    ensures (a + b) + c == a + (b + c) && [] + a == a == a + []
  {}

  function Flat(pieces: seq<string>): string {
    if pieces == [] then [] else pieces[0] + Flat(pieces[1..])
  }

  /** The token in progress may be ended before the next character is looked at. */
  lemma EndFirst(s: State, r: Step, x: string, floatOk: string -> bool)
    requires x != [] && OnChar(s, x[0], floatOk) == Then(r, x[0])
    requires r.0.mode.Start? || r.0.mode.Failed? || r.0.mode.Hung? || r.0.mode.Crashed?
    ensures var more := Feed(r.0, x, floatOk); Feed(s, x, floatOk) == (more.0, r.1 + more.1)
  {
    var next := Plain(r.0, x[0]);
    assert OnChar(r.0, x[0], floatOk) == next;
    hide OnChar, Plain;
    Grouped(r.1, next.1, Feed(next.0, x[1..], floatOk).1);
  }

  // ---------------------------------------------------------------- the output

  function SkipSpace(x: string): (y: string)
    ensures |y| <= |x| && (y != [] ==> !IsSpace(y[0]))
  {
    if x != [] && IsSpace(x[0]) then SkipSpace(x[1..]) else x
  }

  /** The next round writes two tokens: a first character stays alone, and what comes after it
      and any white space is a token, or an error, by itself. */
  predicate PairAhead(s: State, x: string) {
    && s.mode.Pending? && s.mode.prev != '=' && x != [] && !Joins(s.mode.prev, x[0])
    && var y := SkipSpace(x); y != [] && |AtStart(s.inStmt, y[0]).1| == 1
  }

  lemma {:induction false} SpaceIsNothing(inStmt: bool, x: string, floatOk: string -> bool)
    ensures Feed(State(Start, inStmt), x, floatOk) == Feed(State(Start, inStmt), SkipSpace(x), floatOk)
    decreases |x|
  {
    if x != [] && IsSpace(x[0]) {
      SpaceIsNothing(inStmt, x[1..], floatOk);
      Grouped(Feed(State(Start, inStmt), x[1..], floatOk).1, [], []);
    }
  }

  lemma PairIsTwo(s: State, x: string, floatOk: string -> bool)
    requires PairAhead(s, x)
    ensures |Feed(s, x, floatOk).1| >= 2
  {
    var r := EndPending(s.mode.prev, s.inStmt);
    EndFirst(s, r, x, floatOk);
    SpaceIsNothing(s.inStmt, x, floatOk);
    hide Joins, IsSpace, IsFirst, IsSingle;
    var y := SkipSpace(x);
    assert Feed(r.0, y, floatOk).1 == AtStart(s.inStmt, y[0]).1 + Feed(AtStart(s.inStmt, y[0]).0, y[1..], floatOk).1;
  }

  // ---------------------------------------------------------------- numbers

  lemma {:induction false} ValueGrows(text: string, i: nat)
    requires i <= |text|
    ensures Value(text[..i]) <= Value(text)
    decreases |text| - i
  {
    if i == |text| {
      assert text[..i] == text;
    } else {
      assert text[..i + 1][..i] == text[..i];
      ValueGrows(text, i + 1);
    }
  }

  /** Accumulates the number negated, stopping where 32 bits would overflow; the one value
      without a positive counterpart is refused at the end. */
  method ParseInt(text: string) returns (ok: bool, v: int)
    requires text != [] && forall i :: 0 <= i < |text| ==> IsNum(text[i])
    ensures ok <==> Value(text) <= I32_MAX
    ensures ok ==> v == Value(text)
  {
    var acc, i := 0, 0;
    while i < |text|
      invariant 0 <= i <= |text| && acc + Value(text[..i]) == 0 && acc >= -I32_MAX - 1
    {
      assert text[..i + 1][..i] == text[..i];
      ValueGrows(text, i + 1);
      var digit := text[i] as int - '0' as int;
      if acc * 10 < -I32_MAX - 1 {
        return false, 0;
      }
      acc := acc * 10;
      if acc - digit < -I32_MAX - 1 {
        return false, 0;
      }
      acc := acc - digit;
      i := i + 1;
    }
    assert text[..i] == text;
    if acc == -I32_MAX - 1 {
      return false, 0;
    }
    return true, -acc;
  }

  // ---------------------------------------------------------------- the machine

  datatype Tag = START | IDENT | STRING | NUMBER | DECIMAL | ERR | HUNG | CRASHED

  datatype Prev = NoPrev | Prev(c: char)

  /** Where scanning from here leads: the final state and all tokens, those before included. */
  function Ahead(output: seq<Token>, s: State, input: string, floatOk: string -> bool): Step {
    (Feed(s, input, floatOk).0, output + Feed(s, input, floatOk).1)
  }

  /** Consuming one character as OnChar says leads to the same end. */
  lemma Consumed(output: seq<Token>, s: State, input: string, floatOk: string -> bool)
    requires input != []
    ensures var one := OnChar(s, input[0], floatOk);
            && Ahead(output, s, input, floatOk) == Ahead(output + one.1, one.0, input[1..], floatOk)
            && (one.1 == [] ==> output + one.1 == output)
  {
    var one := OnChar(s, input[0], floatOk);
    hide OnChar;
    Grouped(output, one.1, Feed(one.0, input[1..], floatOk).1);
  }

  /** A hung scanner consumes nothing and writes nothing, whatever there is to read. */
  lemma {:induction false} HungStays(output: seq<Token>, inStmt: bool, input: string, floatOk: string -> bool)
    ensures Ahead(output, State(Hung, inStmt), input, floatOk) == (State(Hung, inStmt), output)
    decreases |input|
  {
    if input != [] {
      HungStays(output, inStmt, input[1..], floatOk);
      Consumed(output, State(Hung, inStmt), input, floatOk);
    } else {
      Grouped(output, [], []);
    }
  }

  lemma {:induction false} CrashedStays(output: seq<Token>, inStmt: bool, input: string, floatOk: string -> bool)
    ensures Ahead(output, State(Crashed, inStmt), input, floatOk) == (State(Crashed, inStmt), output)
    decreases |input|
  {
    if input != [] {
      CrashedStays(output, inStmt, input[1..], floatOk);
      Consumed(output, State(Crashed, inStmt), input, floatOk);
    } else {
      Grouped(output, [], []);
    }
  }

  /** Reading on from where a piece leads. */
  lemma AheadMore(output: seq<Token>, s: State, x: string, y: string, floatOk: string -> bool)
    ensures var a := Ahead(output, s, x, floatOk);
            Ahead(output, s, x + y, floatOk) == Ahead(a.1, a.0, y, floatOk)
    ensures |Feed(s, x, floatOk).1| <= |Feed(s, x + y, floatOk).1|
  {
    FeedTwice(s, x, y, floatOk);
    var a := Feed(s, x, floatOk);
    Grouped(output, a.1, Feed(a.0, y, floatOk).1);
  }

  /** So does ending the token in progress without consuming anything. */
  lemma Ended(output: seq<Token>, s: State, r: Step, input: string, floatOk: string -> bool)
    requires input != [] && OnChar(s, input[0], floatOk) == Then(r, input[0])
    requires r.0.mode.Start? || r.0.mode.Failed? || r.0.mode.Hung? || r.0.mode.Crashed?
    ensures Ahead(output, s, input, floatOk) == Ahead(output + r.1, r.0, input, floatOk)
  {
    EndFirst(s, r, input, floatOk);
    Grouped(output, r.1, Feed(r.0, input, floatOk).1);
  }

  class Scanner {
    var tag: Tag
    const str: array<char>
    var slen: nat
    var prev: Prev
    var current: bool
    var input: string
    var output: seq<Token>
    var room: nat
    var overflow: bool
    const floatOk: string -> bool

    ghost predicate Valid()
      reads this, str
    {
      && str.Length == LIMIT && slen <= LIMIT
      && (prev.Prev? ==> tag == START && IsFirst(prev.c))
      && (tag == IDENT || tag == NUMBER || tag == DECIMAL ==> slen > 0)
      && (tag == NUMBER ==> forall i :: 0 <= i < slen ==> IsNum(str[i]))
    }

    ghost function Abs(): State
      requires Valid()
      reads this, str
    {
      var mode :=
        match tag
        case START => if prev.Prev? then Pending(prev.c) else Start
        case IDENT => InName(str[..slen])
        case STRING => InText(str[..slen])
        case NUMBER => InInt(str[..slen])
        case DECIMAL => InFloat(str[..slen])
        case ERR => Failed
        case HUNG => Hung
        case CRASHED => Crashed;
      State(mode, current)
    }

    ghost function Future(): Step
      requires Valid()
      reads this, str
    {
      Ahead(output, Abs(), input, floatOk)
    }

    constructor (floatOk: string -> bool, room: nat)
      ensures Valid() && Abs() == State(Start, false) && input == [] && output == [] && this.room == room && !overflow
      ensures this.floatOk == floatOk && fresh(str)
    {
      tag, slen, prev, current := START, 0, NoPrev, false;
      str := new char[LIMIT];
      input, output, overflow := [], [], false;
      this.room := room;
      this.floatOk := floatOk;
    }

    /** Writes a token; without room for it the source stops at an assertion. */
    method Write(t: Token)
      modifies `output, `room, `overflow
      ensures overflow == (old(overflow) || old(room) == 0)
      ensures old(room) > 0 ==> output == old(output) + [t] && room == old(room) - 1
      ensures old(room) == 0 ==> output == old(output) && room == 0
    {
      if room == 0 {
        overflow := true;
      } else {
        output := output + [t];
        room := room - 1;
      }
    }

    method ProcessToken(t: Token)
      requires str.Length == LIMIT && slen <= LIMIT && prev.NoPrev?
      modifies `output, `room, `overflow, `tag
      ensures Valid() && tag == START
      ensures overflow == (old(overflow) || old(room) == 0)
      ensures old(room) > 0 ==> output == old(output) + [t] && room == old(room) - 1
      ensures old(room) == 0 ==> output == old(output) && room == 0
    {
      Write(t);
      tag := START;
    }

    method ProcessError()
      requires Valid() && prev.NoPrev? && tag != ERR
      modifies `output, `room, `overflow, `tag, `current
      ensures Valid() && tag == ERR && !current
      ensures overflow == (old(overflow) || old(room) == 0)
      ensures old(room) > 0 ==> output == old(output) + [Error] && room == old(room) - 1
      ensures old(room) == 0 ==> output == old(output) && room == 0
    {
      tag := ERR;
      Write(Error);
      current := false;
    }

    /** Consumes a character into the buffer, which holds 512. */
    method CopyAdvance()
      requires Valid() && input != [] && prev.NoPrev? && tag != ERR && (room > 0 || slen < LIMIT) && !overflow
      requires tag == NUMBER ==> IsNum(input[0])
      modifies `input, `slen, str, `output, `room, `overflow, `tag, `current
      ensures Valid() && input == old(input)[1..] && !overflow
      ensures if old(slen) < LIMIT
              then str[..slen] == old(str[..slen]) + [old(input)[0]] && slen == old(slen) + 1
                   && tag == old(tag) && current == old(current) && output == old(output) && room == old(room)
              else tag == ERR && !current && output == old(output) + [Error] && room == old(room) - 1
    {
      var next := input[0];
      input := input[1..];
      if slen == LIMIT {
        ProcessError();
        return;
      }
      str[slen] := next;
      slen := slen + 1;
    }

    /** The end of a name: a keyword, an operation, which opens a statement, or a name of one. */
    method ProcessMaybeIdent()
      requires Valid() && tag == IDENT && room > 0 && !overflow
      modifies `output, `room, `overflow, `tag, `current, `slen
      ensures Valid() && !overflow && room == old(room) - 1 && prev.NoPrev? && (tag == START || tag == ERR)
      ensures |output| + room == old(|output| + room)
      ensures var r := EndName(old(str[..slen]), old(current)); Abs() == r.0 && output == old(output) + r.1
    {
      var lit := str[..slen];
      if lit in KEYWORDS {
        slen := 0;
        ProcessToken(Keyword(lit));
      } else if lit in OPCODES {
        slen := 0;
        current := true;
        ProcessToken(Keyword(lit));
      } else {
        ProcessStringOrIdent(Name(lit));
      }
    }

    /** A name or a string is kept in the open statement; without one it is an error. */
    method ProcessStringOrIdent(t: Token)
      requires Valid() && (tag == IDENT || tag == STRING) && room > 0 && !overflow
      modifies `output, `room, `overflow, `tag, `current, `slen
      ensures Valid() && !overflow && room == old(room) - 1 && prev.NoPrev?
      ensures if old(current) then tag == START && current && output == old(output) + [t]
              else tag == ERR && !current && output == old(output) + [Error]
    {
      if !current {
        ProcessError();
        return;
      }
      slen := 0;
      tag := START;
      ProcessToken(t);
    }

    method ExecuteIdent()
      requires Valid() && tag == IDENT && room > 0 && !overflow
      modifies this, str
      ensures Kept(old(Future()), old(|output| + room)) && !overflow
      ensures Less(old(|input|), old(tag))
    {
      ghost var f, n := Future(), |output| + room;
      hide Ahead, Feed, Plain, AtStart, EndName, EndText, EndInt, EndFloat, EndPending, Then;
      while input != []
        invariant Kept(f, n) && tag == IDENT && room == old(room) && !overflow
        invariant |input| <= old(|input|)
        decreases |input|
      {
        Consumed(output, Abs(), input, floatOk);
        var c := input[0];
        if !(IsAlpha(c) || IsNum(c)) {
          ghost var r, written := EndName(str[..slen], current), output;
          Ended(output, Abs(), r, input, floatOk);
          ProcessMaybeIdent();
          assert Abs() == r.0 && output == written + r.1;
          assert Kept(f, n);
          return;
        }
        CopyAdvance();
        if tag == ERR {
          return;
        }
      }
    }

    method ExecuteString()
      requires Valid() && tag == STRING && room > 0 && !overflow
      modifies this, str
      ensures Kept(old(Future()), old(|output| + room)) && !overflow
      ensures Less(old(|input|), old(tag))
    {
      ghost var f, n := Future(), |output| + room;
      hide Ahead, Feed, Plain, AtStart, EndName, EndInt, EndFloat, EndPending, Then;
      while input != []
        invariant Kept(f, n) && tag == STRING && room == old(room) && !overflow
        invariant |input| <= old(|input|)
        decreases |input|
      {
        Consumed(output, Abs(), input, floatOk);
        if input[0] == '"' {
          input := input[1..];
          ProcessStringOrIdent(Text(str[..slen]));
          return;
        }
        CopyAdvance();
        if tag == ERR {
          return;
        }
      }
    }

    /** The end of an integer. */
    method ProcessInt()
      requires Valid() && tag == NUMBER && room > 0 && !overflow
      modifies `output, `room, `overflow, `tag, `current, `slen
      ensures Valid() && !overflow && room == old(room) - 1 && prev.NoPrev? && (tag == START || tag == ERR)
      ensures |output| + room == old(|output| + room)
      ensures var r := EndInt(old(str[..slen]), old(current)); Abs() == r.0 && output == old(output) + r.1
    {
      var lit := str[..slen];
      var ok, dest := ParseInt(lit);
      if !ok {
        ProcessError();
        slen := 0;
        return;
      }
      slen := 0;
      ProcessToken(Int(dest));
    }

    /** The end of a float; the source's parser asserts that a digit follows the point. */
    method ProcessDec()
      requires Valid() && tag == DECIMAL && room > 0 && !overflow
      modifies `output, `room, `overflow, `tag, `current, `slen
      ensures Valid() && !overflow && prev.NoPrev? && (tag == START || tag == ERR || tag == CRASHED)
      ensures |output| + room == old(|output| + room)
      ensures var r := EndFloat(old(str[..slen]), old(current), floatOk); Abs() == r.0 && output == old(output) + r.1
    {
      var lit := str[..slen];
      if lit[slen - 1] == '.' {
        tag := CRASHED;
      } else if floatOk(lit) {
        slen := 0;
        ProcessToken(Float(lit));
      } else {
        ProcessError();
        slen := 0;
      }
    }

    method ExecuteNumber()
      requires Valid() && tag == NUMBER && room > 0 && !overflow
      modifies this, str
      ensures Kept(old(Future()), old(|output| + room)) && !overflow
      ensures Less(old(|input|), old(tag))
    {
      ghost var f, n := Future(), |output| + room;
      hide Ahead, Feed, Plain, AtStart, EndName, EndText, EndInt, EndFloat, EndPending, Then;
      while input != []
        invariant Kept(f, n) && tag == NUMBER && room == old(room) && !overflow
        invariant |input| <= old(|input|)
        decreases |input|
      {
        Consumed(output, Abs(), input, floatOk);
        var c := input[0];
        if !IsNum(c) {
          if c == '.' {
            tag := DECIMAL;
            CopyAdvance();
            assert Kept(f, n);
            if tag == DECIMAL {
              ExecuteDec();
            }
            return;
          }
          ghost var r, written := EndInt(str[..slen], current), output;
          Ended(output, Abs(), r, input, floatOk);
          ProcessInt();
          assert Abs() == r.0 && output == written + r.1;
          assert Kept(f, n);
          return;
        }
        CopyAdvance();
        if tag == ERR {
          return;
        }
      }
    }

    method ExecuteDec()
      requires Valid() && tag == DECIMAL && room > 0 && !overflow
      modifies this, str
      ensures Kept(old(Future()), old(|output| + room)) && !overflow
      ensures Less(old(|input|), old(tag))
    {
      ghost var f, n := Future(), |output| + room;
      hide Ahead, Feed, Plain, AtStart, EndName, EndText, EndInt, EndFloat, EndPending, Then;
      while input != []
        invariant Kept(f, n) && tag == DECIMAL && room == old(room) && !overflow
        invariant |input| <= old(|input|)
        decreases |input|
      {
        Consumed(output, Abs(), input, floatOk);
        var c := input[0];
        if !IsNum(c) {
          ghost var r, written := EndFloat(str[..slen], current, floatOk), output;
          Ended(output, Abs(), r, input, floatOk);
          ProcessDec();
          assert Abs() == r.0 && output == written + r.1;
          assert Kept(f, n);
          return;
        }
        CopyAdvance();
        if tag == ERR {
          return;
        }
      }
    }

    /** After an error only a semicolon is consumed; on any other character the source's loop
        does not end. */
    method ExecuteErr()
      requires Valid() && tag == ERR && input != [] && !overflow
      modifies `tag, `input
      ensures Kept(old(Future()), old(|output| + room)) && !overflow
      ensures Less(old(|input|), old(tag))
    {
      Consumed(output, Abs(), input, floatOk);
      if input[0] == ';' {
        input := input[1..];
        tag := START;
      } else {
        HungStays(output, current, input, floatOk);
        tag := HUNG;
      }
    }

    method ConsumeWhitespace()
      requires Valid() && tag == START && prev.NoPrev?
      modifies `input
      ensures input == old(SkipSpace(input))
      ensures Future() == old(Future())
    {
      SpaceIsNothing(current, input, floatOk);
      ghost var x := input;
      while input != [] && IsSpace(input[0])
        invariant SkipSpace(input) == SkipSpace(x)
        decreases |input|
      {
        input := input[1..];
      }
    }

    /** Takes up the character kept back: answers whether the round is over. */
    method ResolvePrev() returns (over: bool)
      requires Valid() && tag == START && prev.Prev? && input != [] && room > 0 && !overflow
      modifies `prev, `input, `tag, `output, `room, `overflow, `current
      ensures Kept(old(Future()), old(|output| + room)) && !overflow && prev.NoPrev?
      ensures over <==> Joins(old(prev).c, old(input)[0]) || old(prev).c == '='
      ensures if over then |input| < old(|input|) || (input == old(input) && tag == ERR)
              else tag == START && input == old(input) && current == old(current) && room == old(room) - 1
    {
      ghost var f, n, s := Future(), |output| + room, Abs();
      var p, next := prev.c, input[0];
      hide Ahead, Feed, Plain, AtStart, Then;
      Consumed(output, s, input, floatOk);
      prev := NoPrev;
      if Joins(p, next) {
        input := input[1..];
        ProcessToken(Sym([p, next]));
        over := true;
        assert Kept(f, n);
      } else {
        Ended(output, s, EndPending(p, current), input, floatOk);
        if p == '=' {
          ProcessError();
          over := true;
        } else {
          ProcessToken(Sym([p]));
          over := false;
        }
        assert Kept(f, n);
      }
    }

    /** Begins the next token, or is done with it if it is one character. */
    method BeginToken()
      requires Valid() && tag == START && prev.NoPrev? && input != [] && !IsSpace(input[0]) && !overflow
      modifies this, str
      ensures Valid() && input == old(input)[1..]
      ensures var r := AtStart(old(current), old(input)[0]);
              && overflow == (r.1 != [] && old(room) == 0)
              && (!overflow ==> Abs() == r.0 && output == old(output) + r.1 && room == old(room) - |r.1|)
    {
      var next := input[0];
      if IsFirst(next) {
        input := input[1..];
        prev := Prev(next);
      } else if IsSingle(next) {
        input := input[1..];
        ProcessToken(Sym([next]));
      } else if next == ';' {
        input := input[1..];
        ProcessToken(Sym([next]));
        current := false;
      } else {
        BeginLonger();
      }
    }

    /** Begins a string, a name or a number; any other character is an error. */
    method BeginLonger()
      requires Valid() && tag == START && prev.NoPrev? && input != [] && !overflow
      requires var c := input[0]; !IsSpace(c) && !IsFirst(c) && !IsSingle(c) && c != ';'
      modifies this, str
      ensures Valid() && input == old(input)[1..]
      ensures var r := AtStart(old(current), old(input)[0]);
              && overflow == (r.1 != [] && old(room) == 0)
              && (!overflow ==> Abs() == r.0 && output == old(output) + r.1 && room == old(room) - |r.1|)
    {
      var next := input[0];
      hide IsSpace, IsFirst, IsSingle;
      if next == '"' {
        slen := 0;
        input := input[1..];
        tag := STRING;
        assert str[..slen] == [];
      } else if IsAlpha(next) {
        slen := 0;
        CopyAdvance();
        tag := IDENT;
        assert str[..slen] == [next];
      } else if IsNum(next) {
        slen := 0;
        CopyAdvance();
        assert str[..slen] == [next];
        assert str[0] == str[..slen][0];
        tag := NUMBER;
      } else {
        input := input[1..];
        ProcessError();
      }
    }

    method ExecuteStart()
      requires Valid() && tag == START && input != [] && room > 0 && !overflow
      modifies this, str
      ensures Valid()
      ensures overflow <==> old(room) == 1 && old(PairAhead(Abs(), input))
      ensures !overflow ==> Kept(old(Future()), old(|output| + room)) && Less(old(|input|), old(tag))
    {
      ghost var f, n := Future(), |output| + room;
      if prev.Prev? {
        var over := ResolvePrev();
        if over {
          return;
        }
      }
      ConsumeWhitespace();
      if input == [] {
        return;
      }
      Consumed(output, Abs(), input, floatOk);
      BeginToken();
    }

    /** One round: at most one token, or two when a first character turns out to stay alone. */
    method AtMostOneToken()
      requires Valid() && tag != HUNG && tag != CRASHED && input != [] && room > 0 && !overflow
      modifies this, str
      ensures Valid()
      ensures overflow <==> old(room) == 1 && old(PairAhead(Abs(), input))
      ensures !overflow ==> Kept(old(Future()), old(|output| + room)) && Less(old(|input|), old(tag))
    {
      match tag
      case START => ExecuteStart();
      case IDENT => ExecuteIdent();
      case STRING => ExecuteString();
      case NUMBER => ExecuteNumber();
      case DECIMAL => ExecuteDec();
      case ERR => ExecuteErr();
    }

    /** Scans until the input is used up or the output is full.  Whatever has been written, and
        whatever is left to read, the end it leads to is the same; and where the tokens ahead
        are fewer than the slots, all the input is read. */
    method Execute()
      requires Valid() && !overflow
      modifies this, str
      ensures Valid()
      ensures !overflow ==> Kept(old(Future()), old(|output| + room))
      ensures !overflow ==> room == 0 || input == [] || tag == HUNG || tag == CRASHED
      ensures old(room) > |old(Feed(Abs(), input, floatOk)).1| ==> !overflow && room > 0
    {
      ghost var f, n := Future(), |output| + room;
      hide Feed, PairAhead, OnChar;
      assert |f.1| == |output| + |Feed(Abs(), input, floatOk).1|;
      while room > 0 && input != [] && tag != HUNG && tag != CRASHED
        invariant !overflow && Kept(f, n)
        decreases |input|, Rank(tag)
      {
        if PairAhead(Abs(), input) {
          PairIsTwo(Abs(), input, floatOk);
        }
        assert |f.1| == |output| + |Feed(Abs(), input, floatOk).1|;
        AtMostOneToken();
        if overflow {
          return;
        }
      }
    }

    /** The input arrives in pieces, one call of Execute for each.  However it is cut, inside a
        name, a number, a string or an operator, the tokens written and the state reached are
        those of the whole, so long as there are more slots than tokens in it. */
    method ScanAll(pieces: seq<string>)
      requires Valid() && !overflow && (input == [] || pieces != [])
      requires room > |Feed(Abs(), input + Flat(pieces), floatOk).1|
      modifies this, str
      ensures Valid() && !overflow && |output| + room == old(|output| + room)
      ensures Future() == old(Ahead(output, Abs(), input + Flat(pieces), floatOk))
      ensures (Abs(), output) == old(Ahead(output, Abs(), input + Flat(pieces), floatOk))
      ensures input == [] || tag == HUNG || tag == CRASHED
    {
      ghost var f, n := Ahead(output, Abs(), input + Flat(pieces), floatOk), |output| + room;
      assert n > |f.1|;
      assert pieces[0..] == pieces;
      hide Ahead, Feed, Abs, Valid;
      for i := 0 to |pieces|
        invariant Valid() && !overflow && |output| + room == n
        invariant Ahead(output, Abs(), input + Flat(pieces[i..]), floatOk) == f
        invariant i == |pieces| ==> input == [] || tag == HUNG || tag == CRASHED
      {
        assert pieces[i..][1..] == pieces[i + 1..];
        ghost var rest := Flat(pieces[i + 1..]);
        assert input + Flat(pieces[i..]) == (input + pieces[i]) + rest;
        ScanPiece(pieces[i], rest);
      }
      assert input + Flat(pieces[|pieces|..]) == input;
      Drained();
    }

    /** One piece: what it leads to, followed by any rest, is where it leads with that rest. */
    method ScanPiece(piece: string, ghost rest: string)
      requires Valid() && !overflow
      requires |output| + room > |Ahead(output, Abs(), (input + piece) + rest, floatOk).1|
      modifies this, str
      ensures Valid() && !overflow && |output| + room == old(|output| + room)
      ensures Ahead(output, Abs(), input + rest, floatOk) == old(Ahead(output, Abs(), (input + piece) + rest, floatOk))
      ensures input == [] || tag == HUNG || tag == CRASHED
    {
      AheadMore(output, Abs(), input + piece, rest, floatOk);
      hide Feed, Abs, Valid;
      Supply(piece);
      assert |Future().1| == |output| + |Feed(Abs(), input, floatOk).1|;
      Execute();
      AheadMore(output, Abs(), input, rest, floatOk);
    }

    method Supply(piece: string)
      requires Valid()
      modifies `input
      ensures Valid() && Abs() == old(Abs()) && input == old(input) + piece
    {
      input := input + piece;
    }

    /** Where nothing more will be read, what was written is all. */
    lemma Drained()
      requires Valid() && (input == [] || tag == HUNG || tag == CRASHED)
      ensures Future() == (Abs(), output)
    {
      if tag == HUNG {
        HungStays(output, current, input, floatOk);
      } else if tag == CRASHED {
        CrashedStays(output, current, input, floatOk);
      } else {
        Grouped(output, [], []);
      }
    }

    /** What every step keeps: the end that scanning leads to, and the count of slots. */
    ghost predicate Kept(f: Step, n: nat)
      reads this, str
    {
      Valid() && Future() == f && |output| + room == n
    }

    /** Progress: characters consumed, or the token in progress ended, or a dead end reached. */
    ghost predicate Less(len: nat, was: Tag)
      reads this
    {
      |input| < len || (|input| == len && (len == 0 || Rank(tag) < Rank(was)))
    }
  }

  function Rank(t: Tag): nat {
    match t
    case START => 2
    case ERR => 1
    case HUNG => 0
    case CRASHED => 0
    case _ => 3
  }
}
