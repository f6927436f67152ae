/** What the scanner makes of printed text.  Nothing here is said in the scanner's own terms:
    words and operators are spelled out, integers are their decimal digits, and the tokens that
    come back are the ones that were printed. */
module ScannerText {
  import opened Scanner

  // ---------------------------------------------------------------- how tokens are written

  /** The characters of names and keywords; a name does not begin with a digit. */
  predicate Letter(c: char) {
    'a' <= c <= 'z' || 'A' <= c <= 'Z' || c == '_'
  }

  predicate Numeral(c: char) {
    '0' <= c <= '9'
  }

  predicate Blank(c: char) {
    c == ' ' || c == '\t' || c == '\r' || c == '\n'
  }

  predicate Word(w: string) {
    0 < |w| <= 512 && Letter(w[0]) && forall i :: 0 <= i < |w| ==> Letter(w[i]) || Numeral(w[i])
  }

  predicate Numerals(x: string) {
    0 < |x| <= 512 && forall i :: 0 <= i < |x| ==> Numeral(x[i])
  }

  /** The words that open a statement. */
  predicate Operation(w: string) {
    w == "create" || w == "delete" || w == "insert"
  }

  predicate Structure(w: string) {
    w == "struct" || w == "union" || w == "enum" || w == "true" || w == "false"
  }

  predicate Unsigned(w: string) {
    w == "u8" || w == "u16" || w == "u32" || w == "u64"
    || w == "cu16" || w == "cu32" || w == "cu64" || w == "cu128"
  }

  predicate Signed(w: string) {
    w == "i8" || w == "i16" || w == "i32" || w == "i64"
    || w == "ci16" || w == "ci32" || w == "ci64" || w == "ci128"
  }

  predicate Floating(w: string) {
    w == "f16" || w == "f32" || w == "f64" || w == "f128"
    || w == "cf32" || w == "cf64" || w == "cf128" || w == "cf256"
  }

  /** The words that have a meaning of their own. */
  predicate Reserved(w: string) {
    Operation(w) || Structure(w) || Unsigned(w) || Signed(w) || Floating(w)
  }

  /** Operators and brackets that no second character can join. */
  predicate Single(s: string) {
    |s| == 1 && s[0] in "+-*/^%~:,()[]{}"
  }

  predicate Double(s: string) {
    s == "==" || s == "!=" || s == "<=" || s == ">=" || s == "&&" || s == "||"
  }

  /** Operators that are the beginning of a longer one. */
  predicate Stem(s: string) {
    s == "!" || s == "<" || s == ">" || s == "&" || s == "|"
  }

  function Decimal(v: nat): (x: string)
    ensures |x| > 0
  {
    if v < 10 then ["0123456789"[v]] else Decimal(v / 10) + ["0123456789"[v % 10]]
  }

  /** A token that the scanner can return, as long as names and strings are in a statement. */
  predicate Writable(t: Token, open: bool, floatOk: string -> bool) {
    match t
    case Sym(s) => s == ";" || Single(s) || Double(s) || Stem(s)
    case Keyword(w) => Reserved(w)
    case Name(w) => open && Word(w) && !Reserved(w)
    case Text(x) => open && |x| <= 512 && forall i :: 0 <= i < |x| ==> x[i] != '"'
    case Int(v) => v <= 2147483647
    case Float(x) =>
      |x| <= 512 && floatOk(x)
      && exists k :: 0 < k < |x| - 1 && x[k] == '.' && Numerals(x[..k]) && Numerals(x[k + 1..])
    case Error => false
  }

  function Written(t: Token): string {
    match t
    case Sym(s) => s
    case Keyword(w) => w
    case Name(w) => w
    case Text(x) => "\"" + x + "\""
    case Int(v) => Decimal(v)
    case Float(x) => x
    case Error => ""
  }

  /** Where the token ends does not depend on what follows. */
  predicate SelfEnding(t: Token) {
    t.Text? || (t.Sym? && !Stem(t.s))
  }

  /** The character would be read as a part of the token before it. */
  predicate Continues(t: Token, c: char) {
    match t
    case Sym(s) => if s == "&" || s == "|" then [c] == s else Stem(s) && c == '='
    case Keyword(_) => Letter(c) || Numeral(c)
    case Name(_) => Letter(c) || Numeral(c)
    case Int(_) => Numeral(c) || c == '.'
    case Float(_) => Numeral(c)
    case _ => false
  }

  /** The token can be told from the text that follows it. */
  predicate Ends(t: Token, following: string) {
    SelfEnding(t) || (following != [] && !Continues(t, following[0]))
  }

  // ---------------------------------------------------------------- one token

  lemma WordChars(c: char)
    ensures IsAlpha(c) == Letter(c) && IsNum(c) == Numeral(c) && IsSpace(c) == Blank(c)
    ensures Letter(c) ==> !IsFirst(c) && !IsSingle(c) && c != ';' && c != '"' && !Blank(c)
    ensures Numeral(c) ==> !IsFirst(c) && !IsSingle(c) && c != ';' && c != '"' && !Blank(c) && !Letter(c) && c != '.'
  {}

  /** A character that only changes the state. */
  lemma Silent(s: State, x: string, s': State, floatOk: string -> bool)
    requires x != [] && OnChar(s, x[0], floatOk) == (s', [])
    ensures Feed(s, x, floatOk) == Feed(s', x[1..], floatOk)
  {
    Grouped(Feed(s', x[1..], floatOk).1, [], []);
  }

  /** Characters that only change the state, with what follows them. */
  lemma Through(s: State, x: string, s': State, y: string, floatOk: string -> bool)
    requires Feed(s, x, floatOk) == (s', [])
    ensures Feed(s, x + y, floatOk) == Feed(s', y, floatOk)
  {
    FeedTwice(s, x, y, floatOk);
    Grouped(Feed(s', y, floatOk).1, [], []);
  }

  lemma {:induction false} NameFeeds(t: string, x: string, open: bool, floatOk: string -> bool)
    requires |t + x| <= 512 && forall i :: 0 <= i < |x| ==> Letter(x[i]) || Numeral(x[i])
    ensures Feed(State(InName(t), open), x, floatOk) == (State(InName(t + x), open), [])
    decreases |x|
  {
    if x == [] {
      assert t + x == t;
    } else {
      WordChars(x[0]);
      Silent(State(InName(t), open), x, State(InName(t + [x[0]]), open), floatOk);
      assert (t + [x[0]]) + x[1..] == t + x;
      NameFeeds(t + [x[0]], x[1..], open, floatOk);
    }
  }

  lemma {:induction false} IntFeeds(t: string, x: string, open: bool, floatOk: string -> bool)
    requires |t + x| <= 512 && forall i :: 0 <= i < |x| ==> Numeral(x[i])
    ensures Feed(State(InInt(t), open), x, floatOk) == (State(InInt(t + x), open), [])
    decreases |x|
  {
    if x == [] {
      assert t + x == t;
    } else {
      Silent(State(InInt(t), open), x, State(InInt(t + [x[0]]), open), floatOk);
      assert (t + [x[0]]) + x[1..] == t + x;
      IntFeeds(t + [x[0]], x[1..], open, floatOk);
    }
  }

  lemma {:induction false} FloatFeeds(t: string, x: string, open: bool, floatOk: string -> bool)
    requires |t + x| <= 512 && forall i :: 0 <= i < |x| ==> Numeral(x[i])
    ensures Feed(State(InFloat(t), open), x, floatOk) == (State(InFloat(t + x), open), [])
    decreases |x|
  {
    if x == [] {
      assert t + x == t;
    } else {
      Silent(State(InFloat(t), open), x, State(InFloat(t + [x[0]]), open), floatOk);
      assert (t + [x[0]]) + x[1..] == t + x;
      FloatFeeds(t + [x[0]], x[1..], open, floatOk);
    }
  }

  lemma {:induction false} TextFeeds(t: string, x: string, open: bool, floatOk: string -> bool)
    requires |t + x| <= 512 && forall i :: 0 <= i < |x| ==> x[i] != '"'
    ensures Feed(State(InText(t), open), x, floatOk) == (State(InText(t + x), open), [])
    decreases |x|
  {
    if x == [] {
      assert t + x == t;
    } else {
      Silent(State(InText(t), open), x, State(InText(t + [x[0]]), open), floatOk);
      assert (t + [x[0]]) + x[1..] == t + x;
      TextFeeds(t + [x[0]], x[1..], open, floatOk);
    }
  }

  /** A word, with what follows it: it is looked up when the next character is not part of it. */
  lemma WordScans(w: string, open: bool, y: string, floatOk: string -> bool)
    requires Word(w) && y != [] && !Letter(y[0]) && !Numeral(y[0])
    ensures var r := EndName(w, open);
            var more := Feed(r.0, y, floatOk);
            Feed(State(Start, open), w + y, floatOk) == (more.0, r.1 + more.1)
  {
    WordChars(w[0]);
    WordChars(y[0]);
    Silent(State(Start, open), w, State(InName([w[0]]), open), floatOk);
    assert [w[0]] + w[1..] == w;
    NameFeeds([w[0]], w[1..], open, floatOk);
    assert OnChar(State(InName(w), open), y[0], floatOk) == Then(EndName(w, open), y[0]);
    hide Feed, OnChar, EndName;
    Through(State(Start, open), w, State(InName(w), open), y, floatOk);
    EndFirst(State(InName(w), open), EndName(w, open), y, floatOk);
  }

  lemma NumeralsScan(x: string, open: bool, y: string, floatOk: string -> bool)
    requires Numerals(x)
    ensures Feed(State(Start, open), x + y, floatOk) == Feed(State(InInt(x), open), y, floatOk)
  {
    WordChars(x[0]);
    Silent(State(Start, open), x, State(InInt([x[0]]), open), floatOk);
    hide Feed, OnChar;
    assert [x[0]] + x[1..] == x;
    IntFeeds([x[0]], x[1..], open, floatOk);
    Through(State(Start, open), x, State(InInt(x), open), y, floatOk);
  }

  lemma IntScans(x: string, open: bool, y: string, floatOk: string -> bool)
    requires Numerals(x) && y != [] && !Numeral(y[0]) && y[0] != '.'
    ensures var r := EndInt(x, open);
            var more := Feed(r.0, y, floatOk);
            Feed(State(Start, open), x + y, floatOk) == (more.0, r.1 + more.1)
  {
    NumeralsScan(x, open, y, floatOk);
    assert OnChar(State(InInt(x), open), y[0], floatOk) == Then(EndInt(x, open), y[0]);
    hide Feed, OnChar;
    EndFirst(State(InInt(x), open), EndInt(x, open), y, floatOk);
  }

  lemma FloatScans(x: string, k: nat, open: bool, y: string, floatOk: string -> bool)
    requires 0 < k < |x| - 1 && |x| <= 512 && x[k] == '.' && Numerals(x[..k]) && Numerals(x[k + 1..])
    requires y != [] && !Numeral(y[0])
    ensures var r := EndFloat(x, open, floatOk);
            var more := Feed(r.0, y, floatOk);
            Feed(State(Start, open), x + y, floatOk) == (more.0, r.1 + more.1)
  {
    var whole, part := x[..k], x[k + 1..];
    assert x + y == whole + (['.'] + (part + y));
    hide Feed, OnChar, Plain;
    NumeralsScan(whole, open, ['.'] + (part + y), floatOk);
    PartScans(whole, part, open, y, floatOk);
    assert whole + ['.'] + part == x;
  }

  lemma PartScans(whole: string, part: string, open: bool, y: string, floatOk: string -> bool)
    requires |whole + ['.'] + part| <= 512 && Numerals(part) && y != [] && !Numeral(y[0])
    ensures var r := EndFloat(whole + ['.'] + part, open, floatOk);
            var more := Feed(r.0, y, floatOk);
            Feed(State(InInt(whole), open), ['.'] + (part + y), floatOk) == (more.0, r.1 + more.1)
  {
    var point, x := whole + ['.'], whole + ['.'] + part;
    assert OnChar(State(InInt(whole), open), '.', floatOk) == (State(InFloat(point), open), []);
    assert OnChar(State(InFloat(x), open), y[0], floatOk) == Then(EndFloat(x, open, floatOk), y[0]);
    hide Feed, OnChar;
    Silent(State(InInt(whole), open), ['.'] + (part + y), State(InFloat(point), open), floatOk);
    assert (['.'] + (part + y))[1..] == part + y;
    FloatFeeds(point, part, open, floatOk);
    Through(State(InFloat(point), open), part, State(InFloat(x), open), y, floatOk);
    EndFirst(State(InFloat(x), open), EndFloat(x, open, floatOk), y, floatOk);
  }

  lemma TextScans(x: string, open: bool, y: string, floatOk: string -> bool)
    requires |x| <= 512 && forall i :: 0 <= i < |x| ==> x[i] != '"'
    ensures var r := EndText(x, open);
            var more := Feed(r.0, y, floatOk);
            Feed(State(Start, open), "\"" + x + "\"" + y, floatOk) == (more.0, r.1 + more.1)
  {
    var all, rest := "\"" + x + "\"" + y, "\"" + y;
    assert all[0] == '"' && all[1..] == x + rest && rest[0] == '"' && rest[1..] == y;
    assert OnChar(State(Start, open), '"', floatOk) == (State(InText([]), open), []);
    assert OnChar(State(InText(x), open), '"', floatOk) == EndText(x, open);
    hide OnChar;
    assert Feed(State(InText(x), open), rest, floatOk).1 == EndText(x, open).1 + Feed(EndText(x, open).0, y, floatOk).1;
    Silent(State(Start, open), all, State(InText([]), open), floatOk);
    hide EndText;
    assert [] + x == x;
    TextFeeds([], x, open, floatOk);
    Through(State(InText([]), open), x, State(InText(x), open), rest, floatOk);
  }

  // ---------------------------------------------------------------- words, numbers, operators

  lemma ReservedIsWord(w: string)
    requires Reserved(w)
    ensures Word(w)
  {
    if Operation(w) || Structure(w) {
      assert forall i :: 0 <= i < |w| ==> Letter(w[i]);
    } else {
      assert |w| <= 5;
    }
  }

  /** A word is the one it spells; any other is a name, which only an open statement can hold. */
  lemma WordMeans(w: string, open: bool)
    ensures EndName(w, open) == if Operation(w) then (State(Start, true), [Keyword(w)])
                                else if Reserved(w) then (State(Start, open), [Keyword(w)])
                                else if open then (State(Start, true), [Name(w)])
                                else (State(Failed, false), [Error])
  {
    assert w in KEYWORDS <==> Structure(w) || Unsigned(w) || Signed(w) || Floating(w);
    assert w in OPCODES <==> Operation(w);
    assert Operation(w) ==> |w| == 6 && w != "struct";
  }

  function Ten(k: nat): nat {
    if k == 0 then 1 else 10 * Ten(k - 1)
  }

  lemma {:induction false} DecimalDigits(v: nat, k: nat)
    requires k > 0 && v < Ten(k)
    ensures 0 < |Decimal(v)| <= k && Value(Decimal(v)) == v
    ensures forall i :: 0 <= i < |Decimal(v)| ==> Numeral(Decimal(v)[i])
    decreases k
  {
    var c := "0123456789"[v % 10];
    assert Numeral(c) && Digit(c) == v % 10;
    hide Numeral, Digit;
    if v < 10 {
      assert [c][..0] == [];
      assert Value([c]) == 10 * Value([]) + Digit(c);
    } else {
      DecimalDigits(v / 10, k - 1);
      assert Decimal(v)[..|Decimal(v)| - 1] == Decimal(v / 10);
    }
  }

  lemma IntMeans(v: nat, open: bool)
    requires v <= 2147483647
    ensures Numerals(Decimal(v)) && EndInt(Decimal(v), open) == (State(Start, open), [Int(v)])
  {
    assert Ten(10) == 10000000000;
    DecimalDigits(v, 10);
  }

  lemma FloatMeans(x: string, k: nat, open: bool, floatOk: string -> bool)
    requires 0 < k < |x| - 1 && Numerals(x[k + 1..]) && floatOk(x)
    ensures EndFloat(x, open, floatOk) == (State(Start, open), [Float(x)])
  {
    assert x[|x| - 1] == x[k + 1..][|x| - k - 2];
  }

  lemma SymScans(t: Token, open: bool, y: string, floatOk: string -> bool)
    requires t.Sym? && (t.s == ";" || Single(t.s) || Double(t.s) || Stem(t.s)) && Ends(t, y)
    ensures var after := if t.s == ";" then false else open;
            var more := Feed(State(Start, after), y, floatOk);
            Feed(State(Start, open), t.s + y, floatOk) == (more.0, [t] + more.1)
  {
    hide Feed;
    var s := t.s;
    if Stem(s) {
      assert s == [s[0]];
      StemScans(s[0], open, y, floatOk);
    } else if Double(s) {
      assert s != ";";
      DoubleScans(s, open, y, floatOk);
    } else {
      SingleScans(s, open, y, floatOk);
    }
  }

  lemma SingleChar(c: char)
    requires c in "+-*/^%~:,()[]{}"
    ensures IsSingle(c) && !IsFirst(c) && !IsSpace(c) && c != ';'
  {}

  lemma SingleMeans(s: string, open: bool)
    requires s == ";" || Single(s)
    ensures |s| == 1 && AtStart(open, s[0]) == (State(Start, if s == ";" then false else open), [Sym(s)])
  {
    assert s == [s[0]];
    if s != ";" {
      SingleChar(s[0]);
      hide IsSingle, IsFirst, IsSpace, Single;
    }
  }

  lemma SingleScans(s: string, open: bool, y: string, floatOk: string -> bool)
    requires s == ";" || Single(s)
    ensures var more := Feed(State(Start, if s == ";" then false else open), y, floatOk);
            Feed(State(Start, open), s + y, floatOk) == (more.0, [Sym(s)] + more.1)
  {
    SingleMeans(s, open);
    hide AtStart, Single;
    assert OnChar(State(Start, open), s[0], floatOk) == AtStart(open, s[0]);
    hide OnChar;
    assert (s + y)[0] == s[0] && (s + y)[1..] == y;
  }

  lemma StemScans(c: char, open: bool, y: string, floatOk: string -> bool)
    requires Stem([c]) && Ends(Sym([c]), y)
    ensures var more := Feed(State(Start, open), y, floatOk);
            Feed(State(Start, open), [c] + y, floatOk) == (more.0, [Sym([c])] + more.1)
  {
    assert ([c] + y)[0] == c && ([c] + y)[1..] == y;
    Silent(State(Start, open), [c] + y, State(Pending(c), open), floatOk);
    assert OnChar(State(Pending(c), open), y[0], floatOk) == Then(EndPending(c, open), y[0]);
    hide Feed, OnChar;
    EndFirst(State(Pending(c), open), EndPending(c, open), y, floatOk);
  }

  lemma DoubleScans(s: string, open: bool, y: string, floatOk: string -> bool)
    requires Double(s)
    ensures var more := Feed(State(Start, open), y, floatOk);
            Feed(State(Start, open), s + y, floatOk) == (more.0, [Sym(s)] + more.1)
  {
    var rest := (s + y)[1..];
    assert (s + y)[0] == s[0] && rest[0] == s[1] && rest[1..] == y && s == [s[0], s[1]];
    Silent(State(Start, open), s + y, State(Pending(s[0]), open), floatOk);
    assert OnChar(State(Pending(s[0]), open), s[1], floatOk) == (State(Start, open), [Sym(s)]);
  }

  // ---------------------------------------------------------------- whole texts

  /** Whether a statement is open after the token: an operation opens one, a semicolon closes it. */
  function OpenAfter(t: Token, open: bool): bool {
    match t
    case Keyword(w) => open || w == "create" || w == "delete" || w == "insert"
    case Sym(s) => open && s != ";"
    case _ => open
  }

  /** A token as it was written is the token that is read. */
  lemma TokenScans(t: Token, open: bool, y: string, floatOk: string -> bool)
    requires Writable(t, open, floatOk) && Ends(t, y)
    ensures var more := Feed(State(Start, OpenAfter(t, open)), y, floatOk);
            Feed(State(Start, open), Written(t) + y, floatOk) == (more.0, [t] + more.1)
  {
    hide Feed, Structure, Unsigned, Signed, Floating, EndName, EndInt, EndFloat, Word, Numerals, Decimal, Single, Double, Stem;
    match t
    case Sym(s) =>
      SymScans(t, open, y, floatOk);
    case Keyword(w) =>
      ReservedIsWord(w);
      WordMeans(w, open);
      WordScans(w, open, y, floatOk);
    case Name(w) =>
      WordMeans(w, open);
      WordScans(w, open, y, floatOk);
    case Text(x) =>
      TextScans(x, open, y, floatOk);
    case Int(v) =>
      IntMeans(v, open);
      IntScans(Decimal(v), open, y, floatOk);
    case Float(x) =>
      var k :| 0 < k < |x| - 1 && x[k] == '.' && Numerals(x[..k]) && Numerals(x[k + 1..]);
      FloatScans(x, k, open, y, floatOk);
      FloatMeans(x, k, open, floatOk);
  }

  /** A token and the white space written after it. */
  datatype Spelled = Spelled(token: Token, gap: string)

  function Print(ps: seq<Spelled>): string {
    if ps == [] then "" else Written(ps[0].token) + (ps[0].gap + Print(ps[1..]))
  }

  function Tokens(ps: seq<Spelled>): (ts: seq<Token>)
    ensures |ts| == |ps|
  {
    if ps == [] then [] else [ps[0].token] + Tokens(ps[1..])
  }

  function OpenAtEnd(ps: seq<Spelled>, open: bool): bool {
    if ps == [] then open else OpenAtEnd(ps[1..], OpenAfter(ps[0].token, open))
  }

  predicate Blanks(gap: string) {
    forall i :: 0 <= i < |gap| ==> Blank(gap[i])
  }

  /** Each token can be written where it stands, and told from what follows it: the gap may be
      empty wherever two tokens do not run together. */
  predicate Legible(ps: seq<Spelled>, open: bool, floatOk: string -> bool) {
    ps == [] ||
    (&& Writable(ps[0].token, open, floatOk)
     && Blanks(ps[0].gap)
     && Ends(ps[0].token, ps[0].gap + Print(ps[1..]))
     && Legible(ps[1..], OpenAfter(ps[0].token, open), floatOk))
  }

  lemma {:induction false} GapScans(gap: string, open: bool, y: string, floatOk: string -> bool)
    requires Blanks(gap)
    ensures Feed(State(Start, open), gap + y, floatOk) == Feed(State(Start, open), y, floatOk)
    decreases |gap|
  {
    if gap == [] {
      assert gap + y == y;
    } else {
      WordChars(gap[0]);
      assert (gap + y)[0] == gap[0] && (gap + y)[1..] == gap[1..] + y;
      Silent(State(Start, open), gap + y, State(Start, open), floatOk);
      hide Feed;
      GapScans(gap[1..], open, y, floatOk);
    }
  }

  /** Printed text is read back as the tokens it was printed from. */
  lemma {:induction false} ReadBack(ps: seq<Spelled>, open: bool, floatOk: string -> bool)
    requires Legible(ps, open, floatOk)
    ensures Feed(State(Start, open), Print(ps), floatOk) == (State(Start, OpenAtEnd(ps, open)), Tokens(ps))
    decreases |ps|
  {
    if ps != [] {
      var t, y := ps[0].token, ps[0].gap + Print(ps[1..]);
      var after := OpenAfter(t, open);
      hide Feed, Writable, Ends, OpenAfter, Blanks, Written;
      TokenScans(t, open, y, floatOk);
      GapScans(ps[0].gap, after, Print(ps[1..]), floatOk);
      ReadBack(ps[1..], after, floatOk);
    }
  }

  lemma {:induction false} EndsClosed(ps: seq<Spelled>, open: bool)
    requires ps != [] && ps[|ps| - 1].token == Sym(";")
    ensures !OpenAtEnd(ps, open)
    decreases |ps|
  {
    if |ps| > 1 {
      assert ps[1..][|ps| - 2] == ps[|ps| - 1];
      EndsClosed(ps[1..], OpenAfter(ps[0].token, open));
    }
  }

  /** Statements, the last of them ended by its semicolon: every token comes back, and the
      scanner is ready for the next statement. */
  lemma StatementsReadBack(ps: seq<Spelled>, floatOk: string -> bool)
    requires Legible(ps, false, floatOk) && ps != [] && ps[|ps| - 1].token == Sym(";")
    ensures Feed(State(Start, false), Print(ps), floatOk) == (State(Start, false), Tokens(ps))
  {
    EndsClosed(ps, false);
    hide Legible, OpenAtEnd;
    ReadBack(ps, false, floatOk);
  }

  /** One blank after each token is always enough. */
  function OneSpaceEach(ts: seq<Token>): (ps: seq<Spelled>)
    ensures |ps| == |ts|
  {
    if ts == [] then [] else [Spelled(ts[0], " ")] + OneSpaceEach(ts[1..])
  }

  predicate AllWritable(ts: seq<Token>, open: bool, floatOk: string -> bool) {
    ts == [] || (Writable(ts[0], open, floatOk) && AllWritable(ts[1..], OpenAfter(ts[0], open), floatOk))
  }

  lemma SpaceEnds(t: Token, y: string)
    ensures Ends(t, " " + y)
  {
    assert (" " + y)[0] == ' ';
    assert !Continues(t, ' ');
  }

  lemma {:induction false} OneSpaceIsLegible(ts: seq<Token>, open: bool, floatOk: string -> bool)
    requires AllWritable(ts, open, floatOk)
    ensures Legible(OneSpaceEach(ts), open, floatOk) && Tokens(OneSpaceEach(ts)) == ts
    decreases |ts|
  {
    hide Writable, Ends, OpenAfter, Written;
    if ts != [] {
      var ps := OneSpaceEach(ts);
      assert ps[0] == Spelled(ts[0], " ") && ps[1..] == OneSpaceEach(ts[1..]);
      OneSpaceIsLegible(ts[1..], OpenAfter(ts[0], open), floatOk);
      SpaceEnds(ts[0], Print(ps[1..]));
    }
  }

  // ---------------------------------------------------------------- what is refused

  /** After an error everything but a semicolon is held up for ever. */
  function Refused(c: char, y: string, floatOk: string -> bool): Step {
    if c == ';' then (Feed(State(Start, false), y, floatOk).0, [Error] + Feed(State(Start, false), y, floatOk).1)
    else (State(Hung, false), [Error])
  }

  lemma AfterError(c: char, y: string, floatOk: string -> bool)
    ensures var more := Feed(State(Failed, false), [c] + y, floatOk);
            Refused(c, y, floatOk) == (more.0, [Error] + more.1)
  {
    assert ([c] + y)[0] == c && ([c] + y)[1..] == y;
    if c == ';' {
      Silent(State(Failed, false), [c] + y, State(Start, false), floatOk);
    } else {
      Silent(State(Failed, false), [c] + y, State(Hung, false), floatOk);
      HungStays([], false, y, floatOk);
      Grouped(Feed(State(Hung, false), y, floatOk).1, [], []);
      Grouped([Error], [], []);
    }
  }

  /** A name outside a statement is an error. */
  lemma NameOutside(w: string, c: char, y: string, floatOk: string -> bool)
    requires Word(w) && !Reserved(w) && !Letter(c) && !Numeral(c)
    ensures Feed(State(Start, false), w + ([c] + y), floatOk) == Refused(c, y, floatOk)
  {
    assert ([c] + y)[0] == c;
    WordScans(w, false, [c] + y, floatOk);
    WordMeans(w, false);
    assert EndName(w, false) == (State(Failed, false), [Error]);
    hide Feed, EndName, Reserved;
    AfterError(c, y, floatOk);
  }

  /** So is a string outside a statement. */
  lemma TextOutside(x: string, c: char, y: string, floatOk: string -> bool)
    requires |x| <= 512 && forall i :: 0 <= i < |x| ==> x[i] != '"'
    ensures Feed(State(Start, false), "\"" + x + "\"" + ([c] + y), floatOk) == Refused(c, y, floatOk)
  {
    TextScans(x, false, [c] + y, floatOk);
    hide Feed;
    AfterError(c, y, floatOk);
  }

  /** And a single =, in a statement or outside. */
  lemma BareEquals(open: bool, c: char, y: string, floatOk: string -> bool)
    requires c != '='
    ensures Feed(State(Start, open), "=" + ([c] + y), floatOk) == Refused(c, y, floatOk)
  {
    assert ("=" + ([c] + y))[0] == '=' && ("=" + ([c] + y))[1..] == [c] + y && ([c] + y)[0] == c;
    Silent(State(Start, open), "=" + ([c] + y), State(Pending('='), open), floatOk);
    EndFirst(State(Pending('='), open), EndPending('=', open), [c] + y, floatOk);
    hide Feed;
    AfterError(c, y, floatOk);
  }

  /** And an integer above the greatest of 32 bits with a sign. */
  lemma TooGreat(v: nat, k: nat, open: bool, c: char, y: string, floatOk: string -> bool)
    requires 2147483647 < v < Ten(k) && k <= 512 && !Numeral(c) && c != '.'
    ensures Feed(State(Start, open), Decimal(v) + ([c] + y), floatOk) == Refused(c, y, floatOk)
  {
    DecimalDigits(v, k);
    assert ([c] + y)[0] == c;
    IntScans(Decimal(v), open, [c] + y, floatOk);
    hide Feed;
    AfterError(c, y, floatOk);
  }

  /** And a name of more than 512 characters, at the first one too many. */
  lemma NameTooLong(w: string, open: bool, c: char, y: string, floatOk: string -> bool)
    requires |w| == 513 && Word(w[..512]) && (Letter(w[512]) || Numeral(w[512]))
    ensures Feed(State(Start, open), w + ([c] + y), floatOk) == Refused(c, y, floatOk)
  {
    var head := w[..512];
    NameFeeds([head[0]], head[1..], open, floatOk);
    assert [head[0]] + head[1..] == head;
    WordChars(head[0]);
    Silent(State(Start, open), head, State(InName([head[0]]), open), floatOk);
    OneTooMany(State(Start, open), State(InName(head), open), w, c, y, floatOk);
  }

  /** And digits, or a string, of more than 512 characters. */
  lemma NumberTooLong(x: string, open: bool, c: char, y: string, floatOk: string -> bool)
    requires |x| == 513 && Numerals(x[..512]) && Numeral(x[512])
    ensures Feed(State(Start, open), x + ([c] + y), floatOk) == Refused(c, y, floatOk)
  {
    var head := x[..512];
    NumeralsScan(head, open, [], floatOk);
    assert head + [] == head;
    OneTooMany(State(Start, open), State(InInt(head), open), x, c, y, floatOk);
  }

  lemma TextTooLong(x: string, open: bool, c: char, y: string, floatOk: string -> bool)
    requires |x| == 513 && forall i :: 0 <= i < |x| ==> x[i] != '"'
    ensures Feed(State(Start, open), ['"'] + (x + ([c] + y)), floatOk) == Refused(c, y, floatOk)
  {
    var head := x[..512];
    var rest := x + ([c] + y);
    assert (['"'] + rest)[0] == '"' && (['"'] + rest)[1..] == rest;
    Silent(State(Start, open), ['"'] + rest, State(InText([]), open), floatOk);
    assert [] + head == head;
    TextFeeds([], head, open, floatOk);
    OneTooMany(State(InText([]), open), State(InText(head), open), x, c, y, floatOk);
  }

  lemma OneTooMany(s: State, full: State, x: string, c: char, y: string, floatOk: string -> bool)
    requires |x| == 513 && Feed(s, x[..512], floatOk) == (full, []) && OnChar(full, x[512], floatOk) == Fail()
    ensures Feed(s, x + ([c] + y), floatOk) == Refused(c, y, floatOk)
  {
    var rest := [x[512]] + ([c] + y);
    assert x + ([c] + y) == x[..512] + rest;
    Through(s, x[..512], full, rest, floatOk);
    assert rest[0] == x[512] && rest[1..] == [c] + y;
    hide OnChar;
    AfterError(c, y, floatOk);
  }

  /** And a character that begins nothing. */
  lemma UnknownChar(b: char, open: bool, c: char, y: string, floatOk: string -> bool)
    requires !Letter(b) && !Numeral(b) && !Blank(b) && b != '"' && b != ';' && b != '='
    requires !Single([b]) && !Stem([b])
    ensures Feed(State(Start, open), [b] + ([c] + y), floatOk) == Refused(c, y, floatOk)
  {
    assert AtStart(open, b) == Fail();
    assert ([b] + ([c] + y))[0] == b && ([b] + ([c] + y))[1..] == [c] + y;
    hide AtStart;
    AfterError(c, y, floatOk);
  }

  /** A number that ends in its point stops the scanner for good. */
  lemma PointAtEnd(x: string, open: bool, c: char, y: string, floatOk: string -> bool)
    requires Numerals(x) && |x| < 512 && !Numeral(c)
    ensures Feed(State(Start, open), x + (['.'] + ([c] + y)), floatOk) == (State(Crashed, open), [])
  {
    hide Feed;
    NumeralsScan(x, open, ['.'] + ([c] + y), floatOk);
    PointFeeds(x, open, [c] + y, floatOk);
  }

  lemma PointStep(x: string, open: bool, c: char, floatOk: string -> bool)
    requires |x| < 512 && !Numeral(c)
    ensures OnChar(State(InInt(x), open), '.', floatOk) == (State(InFloat(x + ['.']), open), [])
    ensures EndFloat(x + ['.'], open, floatOk) == (State(Crashed, open), [])
    ensures OnChar(State(InFloat(x + ['.']), open), c, floatOk) == Then(EndFloat(x + ['.'], open, floatOk), c)
  {}

  lemma PointFeeds(x: string, open: bool, rest: string, floatOk: string -> bool)
    requires |x| < 512 && rest != [] && !Numeral(rest[0])
    ensures Feed(State(InInt(x), open), ['.'] + rest, floatOk) == (State(Crashed, open), [])
  {
    var point := x + ['.'];
    hide *;
    PointStep(x, open, rest[0], floatOk);
    assert (['.'] + rest)[0] == '.' && (['.'] + rest)[1..] == rest;
    Silent(State(InInt(x), open), ['.'] + rest, State(InFloat(point), open), floatOk);
    EndFirst(State(InFloat(point), open), EndFloat(point, open, floatOk), rest, floatOk);
    CrashedFeeds(open, rest, floatOk);
    Grouped([], [], []);
  }

  lemma CrashedFeeds(open: bool, y: string, floatOk: string -> bool)
    ensures Feed(State(Crashed, open), y, floatOk) == (State(Crashed, open), [])
  {
    CrashedStays([], open, y, floatOk);
    Grouped(Feed(State(Crashed, open), y, floatOk).1, [], []);
  }

  // ---------------------------------------------------------------- the machine

  /** A fresh scanner, given printed statements in any pieces, writes the tokens they were
      printed from and is ready for the next statement. */
  method ScanPrinted(sc: Scanner, ps: seq<Spelled>, pieces: seq<string>)
    requires sc.Valid() && !sc.overflow && sc.Abs() == State(Start, false) && sc.input == []
    requires pieces != [] && Flat(pieces) == Print(ps) && sc.room > |ps|
    requires Legible(ps, false, sc.floatOk) && ps != [] && ps[|ps| - 1].token == Sym(";")
    modifies sc, sc.str
    ensures sc.Valid() && !sc.overflow && sc.Abs() == State(Start, false)
    ensures sc.output == old(sc.output) + Tokens(ps)
    ensures sc.input == []
  {
    assert sc.input + Flat(pieces) == Print(ps);
    StatementsReadBack(ps, sc.floatOk);
    hide Legible, Print, Tokens, Feed;
    sc.ScanAll(pieces);
  }
}
