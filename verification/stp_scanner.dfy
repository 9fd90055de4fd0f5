/**
 * The heuristic scanner of the SystemTap script editor
 * (`STPHeuristicScanner`): scanning forward and backward for a position
 * that meets a stop condition, reading the next or previous token, the
 * keyword table, bracket matching, and the test for a block without
 * braces. The document is a character sequence; its partitioning and the
 * Java character classes it consults are fields of the document.
 *
 * The scanner's mutable `fPos` is returned with every result; `fChar`
 * is not, because every token is decided on a character read during the
 * same call.
 */
module StpScanner {
  import opened JavaLang

  const NOT_FOUND: int := -1
  const UNBOUND: int := -2

  /** A partition of the document; `isDefault` says whether it is the partition the scanner scans in. */
  datatype Region = Region(offset: int, length: int, isDefault: bool)

  datatype Document = Document(
    text: string,
    partitionAt: int -> Region,
    isWhitespace: char -> bool,
    isIdentifierPart: char -> bool)

  predicate Contains(r: Region, p: int)
  {
    r.offset <= p < r.offset + r.length
  }

  /**
   * The partitioning covers every position with a region that contains
   * it, and every position of that region maps back to the same region.
   * Under this the scanner's one-region cache returns what a fresh lookup
   * would, so the cache is not modelled.
   */
  ghost predicate Consistent(d: Document)
  {
    forall p :: 0 <= p < |d.text| ==> ConsistentAt(d, p)
  }

  /** The region at `p` contains `p`, and every position it contains maps back to it. */
  ghost predicate ConsistentAt(d: Document, p: int)
  {
    Contains(d.partitionAt(p), p)
    && forall q :: 0 <= q < |d.text| && Contains(d.partitionAt(p), q) ==> d.partitionAt(q) == d.partitionAt(p)
  }

  function IsDefault(d: Document, p: int): bool
  {
    d.partitionAt(p).isDefault
  }

  datatype Token =
    | EOF | LBRACE | RBRACE | LBRACKET | RBRACKET | LPAREN | RPAREN | SEMICOLON | OTHER
    | COLON | QUESTIONMARK | COMMA | EQUAL | LESSTHAN | GREATERTHAN | DOT | MINUS | PLUS | TILDE
    | IDENT | DOUBLECOLON | SHIFTLEFT | SHIFTRIGHT | ARROW | AGGREGATE
    | IF | DO | FOR | TRY | NEW | CASE | ELSE | ENUM | GOTO | BREAK | CATCH | CLASS | CONST
    | WHILE | UNION | USING | THROW | DELETE | PUBLIC | RETURN | STATIC | STRUCT | SWITCH
    | EXTERN | DEFAULT | FOREACH | PRIVATE | TYPEDEF | VIRTUAL | OPERATOR | TEMPLATE
    | TYPENAME | NAMESPACE | PROTECTED

  // ---------------------------------------------------------------------
  // Stop conditions

  /**
   * The scanner's four stop conditions: any non-whitespace character,
   * non-whitespace in the default partition, a character that is not an
   * identifier part or lies outside the default partition, and one of a
   * set of characters in the default partition.
   */
  datatype Condition = NonWhitespace | NonWhitespaceDefault | NonIdentifierDefault | CharacterMatch(chars: set<char>)

  function Stop(d: Document, c: Condition, p: int): bool
    requires 0 <= p < |d.text|
  {
    var ch := d.text[p];
    match c
    case NonWhitespace => !d.isWhitespace(ch)
    case NonWhitespaceDefault => !d.isWhitespace(ch) && IsDefault(d, p)
    case NonIdentifierDefault => !d.isIdentifierPart(ch) || !IsDefault(d, p)
    case CharacterMatch(chars) => ch in chars && IsDefault(d, p)
  }

  /**
   * The next position to examine: one step, except that the partition-aware
   * conditions jump over a whole partition other than the default one.
   */
  function NextPosition(d: Document, c: Condition, p: int, forward: bool): (r: int)
    ensures forward ==> r > p
    ensures !forward ==> r < p
  {
    var region := d.partitionAt(p);
    if c.NonWhitespace? || region.isDefault then (if forward then p + 1 else p - 1)
    else if forward then (if p < region.offset + region.length then region.offset + region.length else p + 1)
    else (if p > region.offset then region.offset - 1 else p - 1)
  }

  /** The result of a scan: the position found (or `NOT_FOUND`) and the scanner's position afterwards. */
  datatype Scan = Scan(found: int, pos: int)

  function ScanFrom(d: Document, c: Condition, p: int, bound: int): (r: Scan)
    requires 0 <= p && bound <= |d.text|
    ensures r.found == NOT_FOUND || (p <= r.found < bound && Stop(d, c, r.found) && r.pos == r.found)
    ensures r.pos >= p
    decreases bound - p
  {
    if p >= bound then Scan(NOT_FOUND, p)
    else if Stop(d, c, p) then Scan(p, p)
    else ScanFrom(d, c, NextPosition(d, c, p, true), bound)
  }

  function ForwardLimit(d: Document, bound: int): int
  {
    if bound == UNBOUND then |d.text| else bound
  }

  /** `scanForward`: the first stopping position in `[start, bound)`; `UNBOUND` means the document's end. */
  function ScanForward(d: Document, c: Condition, start: int, bound: int): (r: Scan)
    requires start >= 0 && (bound == UNBOUND || bound <= |d.text|)
    ensures r.found == NOT_FOUND || (start <= r.found < ForwardLimit(d, bound) && Stop(d, c, r.found))
    ensures r.found != NOT_FOUND ==> r.pos == r.found
    ensures r.pos >= start
  {
    ScanFrom(d, c, start, ForwardLimit(d, bound))
  }

  function ScanBackFrom(d: Document, c: Condition, p: int, bound: int): (r: Scan)
    requires p < |d.text| && bound >= -1
    ensures r.found == NOT_FOUND || (bound < r.found <= p && Stop(d, c, r.found) && r.pos == r.found)
    ensures r.pos <= p
    decreases p - bound
  {
    if p <= bound then Scan(NOT_FOUND, p)
    else if Stop(d, c, p) then Scan(p, p)
    else ScanBackFrom(d, c, NextPosition(d, c, p, false), bound)
  }

  function BackwardLimit(bound: int): int
  {
    if bound == UNBOUND then -1 else bound
  }

  /** `scanBackward`: the last stopping position in `(bound, start]`; `UNBOUND` means before the document's start. */
  function ScanBackward(d: Document, c: Condition, start: int, bound: int): (r: Scan)
    requires start < |d.text| && (bound == UNBOUND || bound >= -1)
    ensures r.found == NOT_FOUND || (BackwardLimit(bound) < r.found <= start && Stop(d, c, r.found))
    ensures r.found != NOT_FOUND ==> r.pos == r.found
    ensures r.pos <= start
  {
    ScanBackFrom(d, c, start, BackwardLimit(bound))
  }

  /** Positions that a partition-aware condition jumps over do not stop it. */
  lemma SkippedDoNotStop(d: Document, c: Condition, p: int, q: int, forward: bool)
    requires Consistent(d) && 0 <= p < |d.text| && 0 <= q < |d.text| && !Stop(d, c, p)
    requires forward ==> p < q < NextPosition(d, c, p, true)
    requires !forward ==> NextPosition(d, c, p, false) < q < p
    ensures !Stop(d, c, q)
  {
    assert ConsistentAt(d, p);
    if !c.NonWhitespace? && !IsDefault(d, p) {
      assert Contains(d.partitionAt(p), q);
      assert d.partitionAt(q) == d.partitionAt(p);
    }
  }

  /** `scanForward` finds the least stopping position, and reports none only when there is none. */
  lemma {:induction false} ScanFromLeast(d: Document, c: Condition, p: int, bound: int)
    requires Consistent(d) && 0 <= p && bound <= |d.text|
    ensures var r := ScanFrom(d, c, p, bound).found;
            (r != NOT_FOUND ==> forall q :: p <= q < r ==> !Stop(d, c, q))
            && (r == NOT_FOUND ==> forall q :: p <= q < bound ==> !Stop(d, c, q))
    decreases bound - p
  {
    if p < bound && !Stop(d, c, p) {
      var next := NextPosition(d, c, p, true);
      ScanFromLeast(d, c, next, bound);
      forall q | p < q < next && q < bound
        ensures !Stop(d, c, q)
      {
        SkippedDoNotStop(d, c, p, q, true);
      }
    }
  }

  /** `scanBackward` finds the greatest stopping position, and reports none only when there is none. */
  lemma {:induction false} ScanBackFromGreatest(d: Document, c: Condition, p: int, bound: int)
    requires Consistent(d) && p < |d.text| && bound >= -1
    ensures var r := ScanBackFrom(d, c, p, bound).found;
            (r != NOT_FOUND ==> forall q :: r < q <= p ==> !Stop(d, c, q))
            && (r == NOT_FOUND ==> forall q :: bound < q <= p ==> !Stop(d, c, q))
    decreases p - bound
  {
    if p > bound && !Stop(d, c, p) {
      var next := NextPosition(d, c, p, false);
      ScanBackFromGreatest(d, c, next, bound);
      forall q | next < q < p && q > bound
        ensures !Stop(d, c, q)
      {
        SkippedDoNotStop(d, c, p, q, false);
      }
    }
  }

  // ---------------------------------------------------------------------
  // Keywords

  /** The spelling of each keyword token, and `None` for the other tokens. */
  function Spelling(t: Token): (r: Option<string>)
    ensures r.Some? ==> 2 <= |r.value| <= 9
  {
    match t
    case IF => Some("if")
    case DO => Some("do")
    case FOR => Some("for")
    case TRY => Some("try")
    case NEW => Some("new")
    case CASE => Some("case")
    case ELSE => Some("else")
    case ENUM => Some("enum")
    case GOTO => Some("goto")
    case BREAK => Some("break")
    case CATCH => Some("catch")
    case CLASS => Some("class")
    case CONST => Some("const")
    case WHILE => Some("while")
    case UNION => Some("union")
    case USING => Some("using")
    case THROW => Some("throw")
    case DELETE => Some("delete")
    case PUBLIC => Some("public")
    case RETURN => Some("return")
    case STATIC => Some("static")
    case STRUCT => Some("struct")
    case SWITCH => Some("switch")
    case EXTERN => Some("extern")
    case DEFAULT => Some("default")
    case FOREACH => Some("foreach")
    case PRIVATE => Some("private")
    case TYPEDEF => Some("typedef")
    case VIRTUAL => Some("virtual")
    case OPERATOR => Some("operator")
    case TEMPLATE => Some("template")
    case TYPENAME => Some("typename")
    case NAMESPACE => Some("namespace")
    case PROTECTED => Some("protected")
    case _ => None
  }

  /** `getToken`: dispatches on the length first, then compares with each keyword of that length. */
  function GetToken(s: string): (t: Token)
  {
    if |s| == 2 then
      if s == "if" then IF else if s == "do" then DO else IDENT
    else if |s| == 3 then
      if s == "for" then FOR else if s == "try" then TRY else if s == "new" then NEW else IDENT
    else if |s| == 4 then
      if s == "case" then CASE else if s == "else" then ELSE else if s == "enum" then ENUM
      else if s == "goto" then GOTO else IDENT
    else if |s| == 5 then
      if s == "break" then BREAK else if s == "catch" then CATCH else if s == "class" then CLASS
      else if s == "const" then CONST else if s == "while" then WHILE else if s == "union" then UNION
      else if s == "using" then USING else if s == "throw" then THROW else IDENT
    else if |s| == 6 then
      if s == "delete" then DELETE else if s == "public" then PUBLIC else if s == "return" then RETURN
      else if s == "static" then STATIC else if s == "struct" then STRUCT else if s == "switch" then SWITCH
      else if s == "extern" then EXTERN else IDENT
    else if |s| == 7 then
      if s == "default" then DEFAULT else if s == "foreach" then FOREACH else if s == "private" then PRIVATE
      else if s == "typedef" then TYPEDEF else if s == "virtual" then VIRTUAL else IDENT
    else if |s| == 8 then
      if s == "operator" then OPERATOR else if s == "template" then TEMPLATE
      else if s == "typename" then TYPENAME else IDENT
    else if |s| == 9 then
      if s == "namespace" then NAMESPACE else if s == "protected" then PROTECTED else IDENT
    else IDENT
  }

  /** `getToken` yields an identifier or a keyword whose spelling is exactly the string read. */
  lemma GetTokenIsKeywordOrIdent(s: string)
    ensures GetToken(s) == IDENT || Spelling(GetToken(s)) == Some(s)
  {
    if |s| <= 3 {
      GetTokenOfShortLength(s);
    } else if |s| == 4 {
      GetTokenOfLength4(s);
    } else if |s| == 5 {
      GetTokenOfLength5(s);
    } else if |s| == 6 {
      GetTokenOfLength6(s);
    } else if |s| == 7 {
      GetTokenOfLength7(s);
    } else {
      GetTokenOfLongLength(s);
    }
  }

  lemma GetTokenOfShortLength(s: string)
    requires |s| <= 3
    ensures GetToken(s) == IDENT || Spelling(GetToken(s)) == Some(s)
  {
  }

  lemma GetTokenOfLength4(s: string)
    requires |s| == 4
    ensures GetToken(s) == IDENT || Spelling(GetToken(s)) == Some(s)
  {
  }

  lemma GetTokenOfLongLength(s: string)
    requires |s| >= 8
    ensures GetToken(s) == IDENT || Spelling(GetToken(s)) == Some(s)
  {
  }

  lemma GetTokenOfLength5(s: string)
    requires |s| == 5
    ensures GetToken(s) == IDENT || Spelling(GetToken(s)) == Some(s)
  {
  }

  lemma GetTokenOfLength6(s: string)
    requires |s| == 6
    ensures GetToken(s) == IDENT || Spelling(GetToken(s)) == Some(s)
  {
  }

  lemma GetTokenOfLength7(s: string)
    requires |s| == 7
    ensures GetToken(s) == IDENT || Spelling(GetToken(s)) == Some(s)
  {
  }

  /** Every keyword's spelling is read back as that keyword. */
  lemma GetTokenOfSpelling(t: Token)
    requires Spelling(t).Some?
    ensures GetToken(Spelling(t).value) == t
  {
    match t {
      case IF | DO | FOR => KeywordsRead0();
      case TRY | NEW | CASE => KeywordsRead1();
      case ELSE | ENUM | GOTO => KeywordsRead2();
      case BREAK | CATCH | CLASS => KeywordsRead3();
      case CONST | WHILE | UNION => KeywordsRead4();
      case USING | THROW | DELETE => KeywordsRead5();
      case PUBLIC | RETURN | STATIC => KeywordsRead6();
      case STRUCT | SWITCH | EXTERN => KeywordsRead7();
      case DEFAULT | FOREACH | PRIVATE => KeywordsRead8();
      case TYPEDEF | VIRTUAL | OPERATOR => KeywordsRead9();
      case TEMPLATE | TYPENAME | NAMESPACE => KeywordsRead10();
      case PROTECTED => KeywordsRead11();
      case _ =>
    }
  }

  lemma KeywordsRead0()
    ensures GetToken("if") == IF
    ensures GetToken("do") == DO
    ensures GetToken("for") == FOR
  {
  }

  lemma KeywordsRead1()
    ensures GetToken("try") == TRY
    ensures GetToken("new") == NEW
    ensures GetToken("case") == CASE
  {
  }

  lemma KeywordsRead2()
    ensures GetToken("else") == ELSE
    ensures GetToken("enum") == ENUM
    ensures GetToken("goto") == GOTO
  {
  }

  lemma KeywordsRead3()
    ensures GetToken("break") == BREAK
    ensures GetToken("catch") == CATCH
    ensures GetToken("class") == CLASS
  {
  }

  lemma KeywordsRead4()
    ensures GetToken("const") == CONST
    ensures GetToken("while") == WHILE
    ensures GetToken("union") == UNION
  {
  }

  lemma KeywordsRead5()
    ensures GetToken("using") == USING
    ensures GetToken("throw") == THROW
    ensures GetToken("delete") == DELETE
  {
  }

  lemma KeywordsRead6()
    ensures GetToken("public") == PUBLIC
    ensures GetToken("return") == RETURN
    ensures GetToken("static") == STATIC
  {
  }

  lemma KeywordsRead7()
    ensures GetToken("struct") == STRUCT
    ensures GetToken("switch") == SWITCH
    ensures GetToken("extern") == EXTERN
  {
  }

  lemma KeywordsRead8()
    ensures GetToken("default") == DEFAULT
    ensures GetToken("foreach") == FOREACH
    ensures GetToken("private") == PRIVATE
  {
  }

  lemma KeywordsRead9()
    ensures GetToken("typedef") == TYPEDEF
    ensures GetToken("virtual") == VIRTUAL
    ensures GetToken("operator") == OPERATOR
  {
  }

  lemma KeywordsRead10()
    ensures GetToken("template") == TEMPLATE
    ensures GetToken("typename") == TYPENAME
    ensures GetToken("namespace") == NAMESPACE
  {
  }

  lemma KeywordsRead11()
    ensures GetToken("protected") == PROTECTED
  {
  }

  ghost predicate IsKeyword(s: string)
  {
    exists t :: Spelling(t) == Some(s)
  }

  /** Exactly the keyword spellings are read as something other than an identifier. */
  lemma GetTokenIdentIff(s: string)
    ensures GetToken(s) == IDENT <==> !IsKeyword(s)
  {
    GetTokenIsKeywordOrIdent(s);
    if IsKeyword(s) {
      var t :| Spelling(t) == Some(s);
      GetTokenOfSpelling(t);
    }
  }

  // ---------------------------------------------------------------------
  // Operators

  /**
   * Reference lexing of an operator at the start of `s`, longest match
   * first: the token and the number of characters it covers, or `None`
   * when `s` does not start with one of the scanner's operators.
   */
  function LexForward(s: string): (r: Option<(Token, nat)>)
    requires |s| > 0
    ensures r.Some? ==> 1 <= r.value.1 <= 3 && r.value.1 <= |s|
  {
    if StartsWith(s, "::") then Some((DOUBLECOLON, 2))
    else if StartsWith(s, "<<<") then Some((AGGREGATE, 3))
    else if StartsWith(s, "<<") then Some((SHIFTLEFT, 2))
    else if StartsWith(s, "<=") || StartsWith(s, ">=") then Some((OTHER, 2))
    else if StartsWith(s, ">>") then Some((SHIFTRIGHT, 2))
    else if StartsWith(s, "->") then Some((ARROW, 2))
    else SingleCharacter(s[0])
  }

  /** Reference lexing of an operator at the end of `s`, read backward. */
  function LexBackward(s: string): (r: Option<(Token, nat)>)
    requires |s| > 0
    ensures r.Some? ==> 1 <= r.value.1 <= 2 && r.value.1 <= |s|
  {
    if EndsWith(s, "::") then Some((DOUBLECOLON, 2))
    else if EndsWith(s, "<=") || EndsWith(s, ">=") then Some((OTHER, 2))
    else if EndsWith(s, "<<") then Some((SHIFTLEFT, 2))
    else if EndsWith(s, ">>") then Some((SHIFTRIGHT, 2))
    else if EndsWith(s, "->") then Some((ARROW, 2))
    else SingleCharacter(s[|s| - 1])
  }

  function SingleCharacter(ch: char): Option<(Token, nat)>
  {
    match ch
    case '{' => Some((LBRACE, 1))
    case '}' => Some((RBRACE, 1))
    case '[' => Some((LBRACKET, 1))
    case ']' => Some((RBRACKET, 1))
    case '(' => Some((LPAREN, 1))
    case ')' => Some((RPAREN, 1))
    case ';' => Some((SEMICOLON, 1))
    case ':' => Some((COLON, 1))
    case ',' => Some((COMMA, 1))
    case '?' => Some((QUESTIONMARK, 1))
    case '=' => Some((EQUAL, 1))
    case '<' => Some((LESSTHAN, 1))
    case '>' => Some((GREATERTHAN, 1))
    case '.' => Some((DOT, 1))
    case '-' => Some((MINUS, 1))
    case '+' => Some((PLUS, 1))
    case '~' => Some((TILDE, 1))
    case _ => None
  }

  function CharAt(d: Document, i: int): Option<char>
  {
    if 0 <= i < |d.text| then Some(d.text[i]) else None
  }

  /**
   * `peekNextChar` after the scanner has stepped past the current
   * character to `pos`. As written it reads `pos + 1`, one character
   * too far; corrected, it reads `pos`.
   */
  function PeekNext(d: Document, pos: int, corrected: bool): Option<char>
  {
    if corrected then CharAt(d, pos) else CharAt(d, pos + 1)
  }

  /** The operator switch of `nextToken`: the token and the scanner position after it. */
  function ForwardOperator(d: Document, ch: char, pos: int, corrected: bool): (r: Option<(Token, int)>)
    ensures r.Some? ==> r.value.1 >= pos
  {
    var next := PeekNext(d, pos, corrected);
    match ch
    case ':' => if next == Some(':') then Some((DOUBLECOLON, pos + 1)) else Some((COLON, pos))
    case '<' =>
      if next == Some('<') then
        (if PeekNext(d, pos + 1, corrected) == Some('<') then Some((AGGREGATE, pos + 2)) else Some((SHIFTLEFT, pos + 1)))
      else if next == Some('=') then Some((OTHER, pos + 1))
      else Some((LESSTHAN, pos))
    case '>' =>
      if next == Some('>') then Some((SHIFTRIGHT, pos + 1))
      else if next == Some('=') then Some((OTHER, pos + 1))
      else Some((GREATERTHAN, pos))
    case '-' => if next == Some('>') then Some((ARROW, pos + 1)) else Some((MINUS, pos))
    case _ =>
      match SingleCharacter(ch)
      case Some((t, _)) => Some((t, pos))
      case None => None
  }

  /** The operator switch of `previousToken`, which peeks at the character before the scanner's position. */
  function BackwardOperator(d: Document, ch: char, pos: int): (r: Option<(Token, int)>)
    ensures r.Some? ==> r.value.0 != AGGREGATE
  {
    var prev := CharAt(d, pos);
    match ch
    case ':' => if prev == Some(':') then Some((DOUBLECOLON, pos - 1)) else Some((COLON, pos))
    case '=' => if prev == Some('>') || prev == Some('<') then Some((OTHER, pos - 1)) else Some((EQUAL, pos))
    case '<' => if prev == Some('<') then Some((SHIFTLEFT, pos - 1)) else Some((LESSTHAN, pos))
    case '>' =>
      if prev == Some('>') then Some((SHIFTRIGHT, pos - 1))
      else if prev == Some('-') then Some((ARROW, pos - 1))
      else Some((GREATERTHAN, pos))
    case _ =>
      match SingleCharacter(ch)
      case Some((t, _)) => Some((t, pos))
      case None => None
  }

  // ---------------------------------------------------------------------
  // Tokens

  /** A token and the scanner's position after reading it. */
  datatype Step = Step(token: Token, pos: int)

  function NextTokenFrom(d: Document, start: int, bound: int, corrected: bool): (r: Step)
    requires start >= 0 && (bound == UNBOUND || bound <= |d.text|)
    ensures r.token == EOF ==> r.pos >= start
    ensures r.token != EOF ==> r.pos > start
  {
    var first := ScanForward(d, NonWhitespace, start, bound);
    if first.found == NOT_FOUND then Step(EOF, first.pos)
    else
      var ch0 := d.text[first.found];
      if ch0 == '"' || ch0 == '\'' then Step(OTHER, NextPosition(d, NonWhitespaceDefault, first.found, true))
      else
        var s := ScanForward(d, NonWhitespaceDefault, first.found, bound);
        if s.found == NOT_FOUND then Step(EOF, s.pos)
        else
          TokenAt(d, s.found, bound, corrected)
  }

  /** The token `nextToken` reads once the scanner stands on the non-whitespace character at `p`. */
  function TokenAt(d: Document, p: int, bound: int, corrected: bool): (r: Step)
    requires 0 <= p < ForwardLimit(d, bound) && (bound == UNBOUND || bound <= |d.text|)
    ensures r.pos > p
  {
    var ch := d.text[p];
    match ForwardOperator(d, ch, p + 1, corrected)
    case Some((t, after)) => Step(t, after)
    case None =>
      if d.isIdentifierPart(ch) then
        var rest := ScanForward(d, NonIdentifierDefault, p + 1, bound);
        var to := if rest.found == NOT_FOUND then ForwardLimit(d, bound) else rest.found;
        Step(GetToken(d.text[p..to]), rest.pos)
      else Step(OTHER, p + 1)
  }

  /**
   * `nextToken` as written: the look-ahead of `::`, `<<`, `<<<`, `<=`,
   * `>>`, `>=` and `->` reads one character too far.
   */
  function NextTokenAsWritten(d: Document, start: int, bound: int): (r: Step)
    requires start >= 0 && (bound == UNBOUND || bound <= |d.text|)
    ensures r.token == EOF ==> r.pos >= start
    ensures r.token != EOF ==> r.pos > start
  {
    NextTokenFrom(d, start, bound, false)
  }

  /** `nextToken` with the look-ahead reading the character right after the current one. */
  function NextToken(d: Document, start: int, bound: int): (r: Step)
    requires start >= 0 && (bound == UNBOUND || bound <= |d.text|)
    ensures r.token == EOF ==> r.pos >= start
    ensures r.token != EOF ==> r.pos > start
  {
    NextTokenFrom(d, start, bound, true)
  }

  /**
   * The corrected `nextToken` lexes operators by longest match: when the
   * first non-whitespace character from `start` is in the default
   * partition and begins an operator, the token is that operator and the
   * scanner is left just past it.
   */
  lemma NextTokenLexesOperators(d: Document, start: int, bound: int, p: int)
    requires Consistent(d) && start >= 0 && (bound == UNBOUND || bound <= |d.text|)
    requires start <= p < ForwardLimit(d, bound)
    requires forall q :: start <= q < p ==> d.isWhitespace(d.text[q])
    requires !d.isWhitespace(d.text[p]) && IsDefault(d, p) && d.text[p] != '"' && d.text[p] != '\''
    requires LexForward(d.text[p..]).Some?
    ensures NextToken(d, start, bound) ==
              Step(LexForward(d.text[p..]).value.0, p + LexForward(d.text[p..]).value.1)
  {
    ScanFromLeast(d, NonWhitespace, start, ForwardLimit(d, bound));
    assert Stop(d, NonWhitespace, p) && Stop(d, NonWhitespaceDefault, p);
    assert ScanForward(d, NonWhitespace, start, bound).found == p;
    assert ScanForward(d, NonWhitespaceDefault, p, bound) == Scan(p, p);
    assert NextToken(d, start, bound) == TokenAt(d, p, bound, true);
    ForwardOperatorLexes(d, p);
    TokenAtOperator(d, p, bound);
  }

  /** The first non-whitespace character from `start` is the one at `p`. */
  lemma FirstNonWhitespace(d: Document, start: int, bound: int, p: int)
    requires Consistent(d) && start >= 0 && (bound == UNBOUND || bound <= |d.text|)
    requires start <= p < ForwardLimit(d, bound)
    requires forall q :: start <= q < p ==> d.isWhitespace(d.text[q])
    requires !d.isWhitespace(d.text[p])
    ensures ScanForward(d, NonWhitespace, start, bound).found == p
  {
    ScanFromLeast(d, NonWhitespace, start, ForwardLimit(d, bound));
    assert Stop(d, NonWhitespace, p);
  }

  /**
   * Scanning for the end of a word that runs, in the default partition,
   * from `q` up to `e`: the scan stops at `e`, or runs off the bound
   * when the word reaches it.
   */
  lemma {:induction false} WordScan(d: Document, q: int, e: int, limit: int)
    requires 0 <= q <= e <= limit <= |d.text|
    requires forall k :: q <= k < e ==> d.isIdentifierPart(d.text[k]) && IsDefault(d, k)
    requires e < limit ==> !d.isIdentifierPart(d.text[e]) || !IsDefault(d, e)
    ensures ScanFrom(d, NonIdentifierDefault, q, limit) == if e < limit then Scan(e, e) else Scan(NOT_FOUND, limit)
    decreases e - q
  {
    if q < e {
      assert !Stop(d, NonIdentifierDefault, q);
      assert NextPosition(d, NonIdentifierDefault, q, true) == q + 1;
      WordScan(d, q + 1, e, limit);
    }
  }

  /**
   * A string or character literal: when the first non-whitespace
   * character from `start` is a quote, the token is OTHER and the scanner
   * moves past that character.
   */
  lemma NextTokenReadsQuote(d: Document, start: int, bound: int, p: int)
    requires Consistent(d) && start >= 0 && (bound == UNBOUND || bound <= |d.text|)
    requires start <= p < ForwardLimit(d, bound)
    requires forall q :: start <= q < p ==> d.isWhitespace(d.text[q])
    requires !d.isWhitespace(d.text[p]) && (d.text[p] == '"' || d.text[p] == '\'')
    ensures NextToken(d, start, bound).token == OTHER && NextToken(d, start, bound).pos > p
  {
    FirstNonWhitespace(d, start, bound, p);
  }

  /**
   * A word: when the first non-whitespace character from `start` is in
   * the default partition, is no operator and begins a run of identifier
   * characters ending at `e`, the token is what `getToken` makes of the
   * run (a keyword or IDENT) and the scanner is left at `e`.
   */
  lemma NextTokenReadsWord(d: Document, start: int, bound: int, p: int, e: int)
    requires Consistent(d) && start >= 0 && (bound == UNBOUND || bound <= |d.text|)
    requires start <= p < e <= ForwardLimit(d, bound)
    requires forall q :: start <= q < p ==> d.isWhitespace(d.text[q])
    requires !d.isWhitespace(d.text[p]) && d.text[p] != '"' && d.text[p] != '\''
    requires SingleCharacter(d.text[p]).None?
    requires forall q :: p <= q < e ==> d.isIdentifierPart(d.text[q]) && IsDefault(d, q)
    requires e < ForwardLimit(d, bound) ==> !d.isIdentifierPart(d.text[e]) || !IsDefault(d, e)
    ensures NextToken(d, start, bound) == Step(GetToken(d.text[p..e]), e)
  {
    NextTokenStandsAt(d, start, bound, p);
    TokenAtRun(d, p, bound, e);
  }

  /** Standing on a word that runs from `p` to `e`, the token is that word. */
  lemma TokenAtRun(d: Document, p: int, bound: int, e: int)
    requires 0 <= p < e <= ForwardLimit(d, bound) && (bound == UNBOUND || bound <= |d.text|)
    requires SingleCharacter(d.text[p]).None?
    requires forall q :: p <= q < e ==> d.isIdentifierPart(d.text[q]) && IsDefault(d, q)
    requires e < ForwardLimit(d, bound) ==> !d.isIdentifierPart(d.text[e]) || !IsDefault(d, e)
    ensures TokenAt(d, p, bound, true) == Step(GetToken(d.text[p..e]), e)
  {
    WordScan(d, p + 1, e, ForwardLimit(d, bound));
    NoOperatorOnWordChar(d, d.text[p], p + 1);
    TokenAtWord(d, p, bound, e);
  }

  lemma NoOperatorOnWordChar(d: Document, ch: char, pos: int)
    requires SingleCharacter(ch).None?
    ensures ForwardOperator(d, ch, pos, true).None?
  {
  }

  /** On an identifier character with no operator, the token at `p` is the word up to `e`. */
  lemma TokenAtWord(d: Document, p: int, bound: int, e: int)
    requires 0 <= p < e <= ForwardLimit(d, bound) && (bound == UNBOUND || bound <= |d.text|)
    requires ForwardOperator(d, d.text[p], p + 1, true).None? && d.isIdentifierPart(d.text[p])
    requires ScanForward(d, NonIdentifierDefault, p + 1, bound)
               == if e < ForwardLimit(d, bound) then Scan(e, e) else Scan(NOT_FOUND, ForwardLimit(d, bound))
    ensures TokenAt(d, p, bound, true) == Step(GetToken(d.text[p..e]), e)
  {
  }

  /**
   * Any other character in the default partition (punctuation without
   * an operator, such as `*` or `!`) is read as OTHER, one character long.
   */
  lemma NextTokenReadsOther(d: Document, start: int, bound: int, p: int)
    requires Consistent(d) && start >= 0 && (bound == UNBOUND || bound <= |d.text|)
    requires start <= p < ForwardLimit(d, bound)
    requires forall q :: start <= q < p ==> d.isWhitespace(d.text[q])
    requires !d.isWhitespace(d.text[p]) && IsDefault(d, p) && d.text[p] != '"' && d.text[p] != '\''
    requires SingleCharacter(d.text[p]).None? && !d.isIdentifierPart(d.text[p])
    ensures NextToken(d, start, bound) == Step(OTHER, p + 1)
  {
    NextTokenStandsAt(d, start, bound, p);
    NoOperatorOnWordChar(d, d.text[p], p + 1);
    TokenAtOther(d, p, bound);
  }

  lemma TokenAtOther(d: Document, p: int, bound: int)
    requires 0 <= p < ForwardLimit(d, bound) && (bound == UNBOUND || bound <= |d.text|)
    requires ForwardOperator(d, d.text[p], p + 1, true).None? && !d.isIdentifierPart(d.text[p])
    ensures TokenAt(d, p, bound, true) == Step(OTHER, p + 1)
  {
  }

  /** Past leading whitespace, `nextToken` reads the token at the first default non-whitespace character. */
  lemma NextTokenStandsAt(d: Document, start: int, bound: int, p: int)
    requires Consistent(d) && start >= 0 && (bound == UNBOUND || bound <= |d.text|)
    requires start <= p < ForwardLimit(d, bound)
    requires forall q :: start <= q < p ==> d.isWhitespace(d.text[q])
    requires !d.isWhitespace(d.text[p]) && IsDefault(d, p) && d.text[p] != '"' && d.text[p] != '\''
    ensures NextToken(d, start, bound) == TokenAt(d, p, bound, true)
  {
    FirstNonWhitespace(d, start, bound, p);
    assert Stop(d, NonWhitespaceDefault, p);
    assert ScanForward(d, NonWhitespaceDefault, p, bound) == Scan(p, p);
  }

  /** On an operator character the token at `p` is the operator the corrected `ForwardOperator` reads. */
  lemma TokenAtOperator(d: Document, p: int, bound: int)
    requires 0 <= p < ForwardLimit(d, bound) && (bound == UNBOUND || bound <= |d.text|)
    requires ForwardOperator(d, d.text[p], p + 1, true).Some?
    ensures TokenAt(d, p, bound, true) == Step(ForwardOperator(d, d.text[p], p + 1, true).value.0, ForwardOperator(d, d.text[p], p + 1, true).value.1)
  {
  }

  lemma StartsWithTwo(s: string, a: char, b: char)
    ensures StartsWith(s, [a, b]) <==> |s| >= 2 && s[0] == a && s[1] == b
  {
    if |s| >= 2 && s[0] == a && s[1] == b {
      assert s[..2] == [a, b];
    }
  }

  lemma StartsWithThree(s: string, a: char, b: char, c: char)
    ensures StartsWith(s, [a, b, c]) <==> |s| >= 3 && s[0] == a && s[1] == b && s[2] == c
  {
    if |s| >= 3 && s[0] == a && s[1] == b && s[2] == c {
      assert s[..3] == [a, b, c];
    }
  }

  lemma EndsWithTwo(s: string, a: char, b: char)
    ensures EndsWith(s, [a, b]) <==> |s| >= 2 && s[|s| - 2] == a && s[|s| - 1] == b
  {
    if |s| >= 2 && s[|s| - 2] == a && s[|s| - 1] == b {
      assert s[|s| - 2..] == [a, b];
    }
  }

  lemma EndsWithLast(s: string, t: string)
    requires |t| > 0
    ensures EndsWith(s, t) ==> s[|s| - 1] == t[|t| - 1]
  {
    if EndsWith(s, t) {
      assert s[|s| - |t|..][|t| - 1] == s[|s| - 1];
    }
  }

  /** A string whose first character starts no multi-character operator lexes that character alone. */
  lemma LexForwardSingle(s: string)
    requires |s| > 0 && s[0] != ':' && s[0] != '<' && s[0] != '>' && s[0] != '-'
    ensures LexForward(s) == SingleCharacter(s[0])
  {
    StartsWithTwo(s, ':', ':');
    StartsWithThree(s, '<', '<', '<');
    StartsWithTwo(s, '<', '<');
    StartsWithTwo(s, '<', '=');
    StartsWithTwo(s, '>', '=');
    StartsWithTwo(s, '>', '>');
    StartsWithTwo(s, '-', '>');
  }

  /** A string starting with `:`, `<`, `>` or `-` lexes by the characters after it. */
  lemma LexForwardPair(s: string)
    requires |s| > 0
    ensures var first, next, third := s[0], if |s| >= 2 then Some(s[1]) else None, if |s| >= 3 then Some(s[2]) else None;
            && (first == ':' ==> LexForward(s) == if next == Some(':') then Some((DOUBLECOLON, 2)) else Some((COLON, 1)))
            && (first == '<' ==>
                  LexForward(s) == if next == Some('<') then (if third == Some('<') then Some((AGGREGATE, 3)) else Some((SHIFTLEFT, 2)))
                                   else if next == Some('=') then Some((OTHER, 2)) else Some((LESSTHAN, 1)))
            && (first == '>' ==>
                  LexForward(s) == if next == Some('>') then Some((SHIFTRIGHT, 2))
                                   else if next == Some('=') then Some((OTHER, 2)) else Some((GREATERTHAN, 1)))
            && (first == '-' ==> LexForward(s) == if next == Some('>') then Some((ARROW, 2)) else Some((MINUS, 1)))
  {
    StartsWithTwo(s, ':', ':');
    StartsWithThree(s, '<', '<', '<');
    StartsWithTwo(s, '<', '<');
    StartsWithTwo(s, '<', '=');
    StartsWithTwo(s, '>', '=');
    StartsWithTwo(s, '>', '>');
    StartsWithTwo(s, '-', '>');
  }

  /** `ForwardOperator` on a character that starts no multi-character operator does not look ahead. */
  lemma ForwardOperatorSingle(d: Document, ch: char, pos: int, corrected: bool)
    requires ch != ':' && ch != '<' && ch != '>' && ch != '-'
    ensures SingleCharacter(ch).Some? ==> ForwardOperator(d, ch, pos, corrected) == Some((SingleCharacter(ch).value.0, pos))
  {
  }

  /** The corrected look-ahead of `nextToken` agrees with longest-match lexing. */
  lemma ForwardOperatorLexes(d: Document, p: int)
    requires 0 <= p < |d.text| && LexForward(d.text[p..]).Some?
    ensures ForwardOperator(d, d.text[p], p + 1, true)
            == Some((LexForward(d.text[p..]).value.0, p + LexForward(d.text[p..]).value.1))
  {
    var s := d.text[p..];
    assert s[0] == d.text[p];
    var ch := d.text[p];
    if ch == ':' || ch == '<' || ch == '>' || ch == '-' {
      assert CharAt(d, p + 1) == if |s| >= 2 then Some(s[1]) else None;
      assert CharAt(d, p + 2) == if |s| >= 3 then Some(s[2]) else None;
      LexForwardPair(s);
    } else {
      LexForwardSingle(s);
      ForwardOperatorSingle(d, ch, p + 1, true);
    }
  }

  /** Read backward, a string whose last character starts no two-character operator lexes that character alone. */
  lemma LexBackwardSingle(s: string)
    requires |s| > 0 && s[|s| - 1] != ':' && s[|s| - 1] != '=' && s[|s| - 1] != '<' && s[|s| - 1] != '>'
    ensures LexBackward(s) == SingleCharacter(s[|s| - 1])
  {
    EndsWithLast(s, "::");
    EndsWithLast(s, "<=");
    EndsWithLast(s, ">=");
    EndsWithLast(s, "<<");
    EndsWithLast(s, ">>");
    EndsWithLast(s, "->");
  }

  /** Read backward, a string ending in `:`, `=`, `<` or `>` lexes by the character before it. */
  lemma LexBackwardPair(s: string)
    requires |s| > 0
    ensures var last, prev := s[|s| - 1], if |s| >= 2 then Some(s[|s| - 2]) else None;
            && (last == ':' ==> LexBackward(s) == if prev == Some(':') then Some((DOUBLECOLON, 2)) else Some((COLON, 1)))
            && (last == '=' ==> LexBackward(s) == if prev == Some('<') || prev == Some('>') then Some((OTHER, 2)) else Some((EQUAL, 1)))
            && (last == '<' ==> LexBackward(s) == if prev == Some('<') then Some((SHIFTLEFT, 2)) else Some((LESSTHAN, 1)))
            && (last == '>' ==>
                  LexBackward(s) == if prev == Some('>') then Some((SHIFTRIGHT, 2))
                                    else if prev == Some('-') then Some((ARROW, 2)) else Some((GREATERTHAN, 1)))
  {
    EndsWithTwo(s, ':', ':');
    EndsWithTwo(s, '<', '=');
    EndsWithTwo(s, '>', '=');
    EndsWithTwo(s, '<', '<');
    EndsWithTwo(s, '>', '>');
    EndsWithTwo(s, '-', '>');
  }

  /** `BackwardOperator` on a character that starts no two-character operator does not look back. */
  lemma BackwardOperatorSingle(d: Document, ch: char, pos: int)
    requires ch != ':' && ch != '=' && ch != '<' && ch != '>'
    ensures SingleCharacter(ch).Some? ==> BackwardOperator(d, ch, pos) == Some((SingleCharacter(ch).value.0, pos))
  {
  }

  /** `BackwardOperator` on `:`, `=`, `<` or `>` decides by the character before, in the same way as `LexBackwardPair`. */
  lemma BackwardOperatorPair(d: Document, ch: char, pos: int)
    ensures var prev := CharAt(d, pos);
            && (ch == ':' ==> BackwardOperator(d, ch, pos) == if prev == Some(':') then Some((DOUBLECOLON, pos - 1)) else Some((COLON, pos)))
            && (ch == '=' ==> BackwardOperator(d, ch, pos) == if prev == Some('<') || prev == Some('>') then Some((OTHER, pos - 1)) else Some((EQUAL, pos)))
            && (ch == '<' ==> BackwardOperator(d, ch, pos) == if prev == Some('<') then Some((SHIFTLEFT, pos - 1)) else Some((LESSTHAN, pos)))
            && (ch == '>' ==>
                  BackwardOperator(d, ch, pos) == if prev == Some('>') then Some((SHIFTRIGHT, pos - 1))
                                                  else if prev == Some('-') then Some((ARROW, pos - 1)) else Some((GREATERTHAN, pos)))
  {
  }

  /** The look-ahead of `previousToken` agrees with longest-match lexing read backward. */
  lemma BackwardOperatorLexes(d: Document, p: int)
    requires 0 <= p < |d.text| && LexBackward(d.text[..p + 1]).Some?
    ensures BackwardOperator(d, d.text[p], p - 1)
            == Some((LexBackward(d.text[..p + 1]).value.0, p - LexBackward(d.text[..p + 1]).value.1))
  {
    var ch := d.text[p];
    if ch == ':' || ch == '=' || ch == '<' || ch == '>' {
      BackwardPairLexes(d, p);
    } else {
      BackwardSingleLexes(d, p);
    }
  }

  lemma BackwardPairLexes(d: Document, p: int)
    requires 0 <= p < |d.text|
    requires d.text[p] == ':' || d.text[p] == '=' || d.text[p] == '<' || d.text[p] == '>'
    ensures LexBackward(d.text[..p + 1]).Some?
    ensures BackwardOperator(d, d.text[p], p - 1)
            == Some((LexBackward(d.text[..p + 1]).value.0, p - LexBackward(d.text[..p + 1]).value.1))
  {
    var s := d.text[..p + 1];
    assert s[|s| - 1] == d.text[p];
    assert CharAt(d, p - 1) == if |s| >= 2 then Some(s[|s| - 2]) else None;
    LexBackwardPair(s);
    BackwardOperatorPair(d, d.text[p], p - 1);
  }

  lemma BackwardSingleLexes(d: Document, p: int)
    requires 0 <= p < |d.text| && LexBackward(d.text[..p + 1]).Some?
    requires d.text[p] != ':' && d.text[p] != '=' && d.text[p] != '<' && d.text[p] != '>'
    ensures BackwardOperator(d, d.text[p], p - 1)
            == Some((LexBackward(d.text[..p + 1]).value.0, p - LexBackward(d.text[..p + 1]).value.1))
  {
    var s := d.text[..p + 1];
    assert s[|s| - 1] == d.text[p];
    LexBackwardSingle(s);
    BackwardOperatorSingle(d, d.text[p], p - 1);
  }

  /** The defect of the look-ahead: as written, `::` is read as a single colon. */
  lemma NextTokenAsWrittenMissesDoubleColon()
    ensures var d := Document("::", p => Region(0, 2, true), c => c == ' ', c => 'a' <= c <= 'z');
            NextTokenAsWritten(d, 0, UNBOUND) == Step(COLON, 1)
            && NextToken(d, 0, UNBOUND) == Step(DOUBLECOLON, 2)
  {
    var d := Document("::", p => Region(0, 2, true), c => c == ' ', c => 'a' <= c <= 'z');
    assert ScanForward(d, NonWhitespace, 0, UNBOUND) == Scan(0, 0);
    assert ScanForward(d, NonWhitespaceDefault, 0, UNBOUND) == Scan(0, 0);
    assert CharAt(d, 2) == None;
    assert CharAt(d, 1) == Some(':');
  }

  /** As written, `<<<` is read as a shift and `<<` followed by a space as a comparison. */
  lemma NextTokenAsWrittenMissesAggregate()
    ensures var d := Document("<<<", p => Region(0, 3, true), c => c == ' ', c => 'a' <= c <= 'z');
            NextTokenAsWritten(d, 0, UNBOUND) == Step(SHIFTLEFT, 2)
            && NextToken(d, 0, UNBOUND) == Step(AGGREGATE, 3)
    ensures var d := Document("<< ", p => Region(0, 3, true), c => c == ' ', c => 'a' <= c <= 'z');
            NextTokenAsWritten(d, 0, UNBOUND) == Step(LESSTHAN, 1)
            && NextToken(d, 0, UNBOUND) == Step(SHIFTLEFT, 2)
  {
    var d := Document("<<<", p => Region(0, 3, true), c => c == ' ', c => 'a' <= c <= 'z');
    assert ScanForward(d, NonWhitespace, 0, UNBOUND) == Scan(0, 0);
    assert ScanForward(d, NonWhitespaceDefault, 0, UNBOUND) == Scan(0, 0);
    assert CharAt(d, 3) == None;
    var e := Document("<< ", p => Region(0, 3, true), c => c == ' ', c => 'a' <= c <= 'z');
    assert ScanForward(e, NonWhitespace, 0, UNBOUND) == Scan(0, 0);
    assert ScanForward(e, NonWhitespaceDefault, 0, UNBOUND) == Scan(0, 0);
    assert CharAt(e, 2) == Some(' ');
  }

  /**
   * `previousToken`: reads the token ending at the last non-whitespace
   * character of the default partition at or before `start`. It never
   * yields `AGGREGATE`.
   */
  function PreviousToken(d: Document, start: int, bound: int): (r: Step)
    requires start < |d.text| && (bound == UNBOUND || bound >= -1)
    ensures r.token != AGGREGATE
    ensures r.token != EOF ==> r.pos < start
  {
    var s := ScanBackward(d, NonWhitespaceDefault, start, bound);
    if s.found == NOT_FOUND then Step(EOF, s.pos)
    else
      TokenEndingAt(d, s.found, bound)
  }

  /** The token `previousToken` reads once the scanner stands on the non-whitespace character at `p`. */
  function TokenEndingAt(d: Document, p: int, bound: int): (r: Step)
    requires BackwardLimit(bound) < p < |d.text| && (bound == UNBOUND || bound >= -1)
    ensures r.token != AGGREGATE && r.token != EOF && r.pos < p
  {
    var ch := d.text[p];
    match BackwardOperator(d, ch, p - 1)
    case Some((t, before)) => Step(t, before)
    case None =>
      if d.isIdentifierPart(ch) then
        var rest := ScanBackward(d, NonIdentifierDefault, p - 1, bound);
        var from := if rest.found == NOT_FOUND then BackwardLimit(bound) + 1 else rest.found + 1;
        var t := GetToken(d.text[from..p + 1]);
        GetTokenIsKeywordOrIdent(d.text[from..p + 1]);
        Step(t, rest.pos)
      else Step(OTHER, p - 1)
  }

  /**
   * `previousToken` lexes operators backward: when the last
   * non-whitespace character of the default partition at or before
   * `start` ends an operator, the token is that operator and the scanner
   * is left just before it.
   */
  lemma PreviousTokenLexesOperators(d: Document, start: int, bound: int, p: int)
    requires Consistent(d) && start < |d.text| && (bound == UNBOUND || bound >= -1)
    requires BackwardLimit(bound) < p <= start
    requires forall q :: p < q <= start ==> !Stop(d, NonWhitespaceDefault, q)
    requires Stop(d, NonWhitespaceDefault, p)
    requires LexBackward(d.text[..p + 1]).Some?
    ensures PreviousToken(d, start, bound) ==
              Step(LexBackward(d.text[..p + 1]).value.0, p - LexBackward(d.text[..p + 1]).value.1)
  {
    PreviousTokenStandsAt(d, start, bound, p);
    BackwardOperatorLexes(d, p);
    TokenEndingAtOperator(d, p, bound);
  }

  /** With `p` the last stopping position at or before `start`, `previousToken` reads the token ending at `p`. */
  lemma PreviousTokenStandsAt(d: Document, start: int, bound: int, p: int)
    requires Consistent(d) && start < |d.text| && (bound == UNBOUND || bound >= -1)
    requires BackwardLimit(bound) < p <= start
    requires forall q :: p < q <= start ==> !Stop(d, NonWhitespaceDefault, q)
    requires Stop(d, NonWhitespaceDefault, p)
    ensures PreviousToken(d, start, bound) == TokenEndingAt(d, p, bound)
  {
    ScanBackFromGreatest(d, NonWhitespaceDefault, start, BackwardLimit(bound));
    assert ScanBackward(d, NonWhitespaceDefault, start, bound).found == p;
  }

  /**
   * A word read backward: when the last non-whitespace character of the
   * default partition at or before `start` is no operator and ends a run
   * of identifier characters that starts at `from`, the token is what
   * `getToken` makes of the run and the scanner is left just before it.
   */
  lemma PreviousTokenReadsWord(d: Document, start: int, bound: int, from: int, p: int)
    requires Consistent(d) && start < |d.text| && (bound == UNBOUND || bound >= -1)
    requires BackwardLimit(bound) < from <= p <= start
    requires forall q :: p < q <= start ==> !Stop(d, NonWhitespaceDefault, q)
    requires !d.isWhitespace(d.text[p]) && SingleCharacter(d.text[p]).None?
    requires forall q :: from <= q <= p ==> d.isIdentifierPart(d.text[q]) && IsDefault(d, q)
    requires from - 1 > BackwardLimit(bound) ==> !d.isIdentifierPart(d.text[from - 1]) || !IsDefault(d, from - 1)
    ensures PreviousToken(d, start, bound) == Step(GetToken(d.text[from..p + 1]), from - 1)
  {
    assert Stop(d, NonWhitespaceDefault, p);
    PreviousTokenStandsAt(d, start, bound, p);
    TokenEndingAtRun(d, p, bound, from);
  }

  /**
   * Scanning backward for the start of a word that runs, in the default
   * partition, from `from` up to `q`: the scan stops just before `from`,
   * or runs off the bound when the word reaches it.
   */
  lemma {:induction false} WordScanBack(d: Document, q: int, from: int, limit: int)
    requires -1 <= limit < from <= q + 1 && q < |d.text|
    requires forall k :: from <= k <= q ==> d.isIdentifierPart(d.text[k]) && IsDefault(d, k)
    requires from - 1 > limit ==> !d.isIdentifierPart(d.text[from - 1]) || !IsDefault(d, from - 1)
    ensures ScanBackFrom(d, NonIdentifierDefault, q, limit) ==
              if from - 1 > limit then Scan(from - 1, from - 1) else Scan(NOT_FOUND, limit)
    decreases q - from
  {
    if from <= q {
      assert !Stop(d, NonIdentifierDefault, q);
      assert NextPosition(d, NonIdentifierDefault, q, false) == q - 1;
      WordScanBack(d, q - 1, from, limit);
    }
  }

  /** Standing on the last character of a word that starts at `from`, the token is that word. */
  lemma TokenEndingAtRun(d: Document, p: int, bound: int, from: int)
    requires BackwardLimit(bound) < from <= p < |d.text| && (bound == UNBOUND || bound >= -1)
    requires SingleCharacter(d.text[p]).None?
    requires forall q :: from <= q <= p ==> d.isIdentifierPart(d.text[q]) && IsDefault(d, q)
    requires from - 1 > BackwardLimit(bound) ==> !d.isIdentifierPart(d.text[from - 1]) || !IsDefault(d, from - 1)
    ensures TokenEndingAt(d, p, bound) == Step(GetToken(d.text[from..p + 1]), from - 1)
  {
    WordScanBack(d, p - 1, from, BackwardLimit(bound));
    NoBackwardOperatorOnWordChar(d, d.text[p], p - 1);
    TokenEndingAtWord(d, p, bound, from);
  }

  lemma NoBackwardOperatorOnWordChar(d: Document, ch: char, pos: int)
    requires SingleCharacter(ch).None?
    ensures BackwardOperator(d, ch, pos).None?
  {
  }

  /** On an identifier character with no operator, the token ending at `p` is the word from `from`. */
  lemma TokenEndingAtWord(d: Document, p: int, bound: int, from: int)
    requires BackwardLimit(bound) < from <= p < |d.text| && (bound == UNBOUND || bound >= -1)
    requires BackwardOperator(d, d.text[p], p - 1).None? && d.isIdentifierPart(d.text[p])
    requires ScanBackward(d, NonIdentifierDefault, p - 1, bound)
               == if from - 1 > BackwardLimit(bound) then Scan(from - 1, from - 1) else Scan(NOT_FOUND, BackwardLimit(bound))
    ensures TokenEndingAt(d, p, bound) == Step(GetToken(d.text[from..p + 1]), from - 1)
  {
  }

  /** On an operator character the token ending at `p` is the operator `BackwardOperator` reads. */
  lemma TokenEndingAtOperator(d: Document, p: int, bound: int)
    requires BackwardLimit(bound) < p < |d.text| && (bound == UNBOUND || bound >= -1)
    requires BackwardOperator(d, d.text[p], p - 1).Some?
    ensures TokenEndingAt(d, p, bound) == Step(BackwardOperator(d, d.text[p], p - 1).value.0, BackwardOperator(d, d.text[p], p - 1).value.1)
  {
  }

  // ---------------------------------------------------------------------
  // Bracket matching

  predicate IsPeer(d: Document, opening: char, closing: char, p: int)
    requires 0 <= p < |d.text|
  {
    Stop(d, CharacterMatch({opening, closing}), p)
  }

  /**
   * Reference definition of the closing peer: walk position by position
   * from `p`, counting peers in the default partition, and stop where the
   * depth first returns to zero.
   */
  function ClosingPeerFrom(d: Document, opening: char, closing: char, p: int, limit: int, depth: int): (r: int)
    requires 0 <= p && limit <= |d.text| && depth >= 1
    ensures r == NOT_FOUND || (p <= r < limit && d.text[r] == closing && d.text[r] != opening && IsDefault(d, r))
    decreases limit - p
  {
    if p >= limit then NOT_FOUND
    else if IsPeer(d, opening, closing, p) then
      if d.text[p] == opening then ClosingPeerFrom(d, opening, closing, p + 1, limit, depth + 1)
      else if depth == 1 then p
      else ClosingPeerFrom(d, opening, closing, p + 1, limit, depth - 1)
    else ClosingPeerFrom(d, opening, closing, p + 1, limit, depth)
  }

  /** Positions that are not peers do not change the reference result. */
  lemma {:induction false} ClosingPeerSkip(d: Document, opening: char, closing: char, p: int, q: int, limit: int, depth: int)
    requires 0 <= p <= q && limit <= |d.text| && depth >= 1
    requires forall k :: p <= k < q && k < limit ==> !IsPeer(d, opening, closing, k)
    ensures q <= limit ==> ClosingPeerFrom(d, opening, closing, p, limit, depth) == ClosingPeerFrom(d, opening, closing, q, limit, depth)
    ensures q > limit ==> ClosingPeerFrom(d, opening, closing, p, limit, depth) == NOT_FOUND
    decreases q - p
  {
    if p < q && p < limit {
      ClosingPeerSkip(d, opening, closing, p + 1, q, limit, depth);
    }
  }

  /** One round of the `findClosingPeer` loop: the scan for the next peer agrees with the reference walk. */
  lemma ClosingPeerRound(d: Document, opening: char, closing: char, from: int, limit: int, depth: int)
    requires Consistent(d) && 0 <= from && limit <= |d.text| && depth >= 1
    ensures var s := ScanFrom(d, CharacterMatch({opening, closing}), from, limit);
            (s.found == NOT_FOUND ==> ClosingPeerFrom(d, opening, closing, from, limit, depth) == NOT_FOUND)
            && (s.found != NOT_FOUND ==>
                  ClosingPeerFrom(d, opening, closing, from, limit, depth) ==
                    if d.text[s.found] == opening then ClosingPeerFrom(d, opening, closing, s.found + 1, limit, depth + 1)
                    else if depth == 1 then s.found
                    else ClosingPeerFrom(d, opening, closing, s.found + 1, limit, depth - 1))
  {
    var s := ScanFrom(d, CharacterMatch({opening, closing}), from, limit);
    ScanFromLeast(d, CharacterMatch({opening, closing}), from, limit);
    if s.found == NOT_FOUND {
      if from < limit {
        ClosingPeerSkip(d, opening, closing, from, limit, limit, depth);
      }
    } else {
      ClosingPeerSkip(d, opening, closing, from, s.found, limit, depth);
      assert IsPeer(d, opening, closing, s.found);
    }
  }

  /**
   * `findClosingPeer`: from `start`, with depth 1, each opening peer in
   * the default partition deepens and each closing peer shallows; the
   * result is where the depth reaches zero, or `NOT_FOUND`.
   */
  method FindClosingPeer(d: Document, start: int, bound: int, opening: char, closing: char) returns (r: int)
    requires Consistent(d) && start >= 0 && (bound == UNBOUND || bound <= |d.text|)
    ensures r == ClosingPeerFrom(d, opening, closing, start, ForwardLimit(d, bound), 1)
  {
    var limit := ForwardLimit(d, bound);
    var depth := 1;
    var from := start;
    while true
      invariant from >= 0 && depth >= 1
      invariant ClosingPeerFrom(d, opening, closing, start, limit, 1) == ClosingPeerFrom(d, opening, closing, from, limit, depth)
      decreases limit - from
    {
      var s := ScanForward(d, CharacterMatch({opening, closing}), from, bound);
      ClosingPeerRound(d, opening, closing, from, limit, depth);
      if s.found == NOT_FOUND {
        return NOT_FOUND;
      }
      if d.text[s.found] == opening {
        depth := depth + 1;
      } else {
        depth := depth - 1;
      }
      if depth == 0 {
        return s.found;
      }
      from := s.found + 1;
    }
  }

  /** Reference definition of the opening peer: the mirror image, walking backward. */
  function OpeningPeerFrom(d: Document, opening: char, closing: char, p: int, limit: int, depth: int): (r: int)
    requires p < |d.text| && limit >= -1 && depth >= 1
    ensures r == NOT_FOUND || (limit < r <= p && d.text[r] == opening && d.text[r] != closing && IsDefault(d, r))
    decreases p - limit
  {
    if p <= limit then NOT_FOUND
    else if IsPeer(d, opening, closing, p) then
      if d.text[p] == closing then OpeningPeerFrom(d, opening, closing, p - 1, limit, depth + 1)
      else if depth == 1 then p
      else OpeningPeerFrom(d, opening, closing, p - 1, limit, depth - 1)
    else OpeningPeerFrom(d, opening, closing, p - 1, limit, depth)
  }

  lemma {:induction false} OpeningPeerSkip(d: Document, opening: char, closing: char, p: int, q: int, limit: int, depth: int)
    requires q <= p < |d.text| && limit >= -1 && depth >= 1
    requires forall k :: q < k <= p && k > limit ==> !IsPeer(d, opening, closing, k)
    ensures q >= limit ==> OpeningPeerFrom(d, opening, closing, p, limit, depth) == OpeningPeerFrom(d, opening, closing, q, limit, depth)
    ensures q < limit ==> OpeningPeerFrom(d, opening, closing, p, limit, depth) == NOT_FOUND
    decreases p - q
  {
    if q < p && p > limit {
      OpeningPeerSkip(d, opening, closing, p - 1, q, limit, depth);
    }
  }

  /** One round of the `findOpeningPeer` loop: the backward scan agrees with the reference walk. */
  lemma OpeningPeerRound(d: Document, opening: char, closing: char, from: int, limit: int, depth: int)
    requires Consistent(d) && from < |d.text| && limit >= -1 && depth >= 1
    ensures var s := ScanBackFrom(d, CharacterMatch({opening, closing}), from, limit);
            (s.found == NOT_FOUND ==> OpeningPeerFrom(d, opening, closing, from, limit, depth) == NOT_FOUND)
            && (s.found != NOT_FOUND ==>
                  OpeningPeerFrom(d, opening, closing, from, limit, depth) ==
                    if d.text[s.found] == closing then OpeningPeerFrom(d, opening, closing, s.found - 1, limit, depth + 1)
                    else if depth == 1 then s.found
                    else OpeningPeerFrom(d, opening, closing, s.found - 1, limit, depth - 1))
  {
    var s := ScanBackFrom(d, CharacterMatch({opening, closing}), from, limit);
    ScanBackFromGreatest(d, CharacterMatch({opening, closing}), from, limit);
    if s.found == NOT_FOUND {
      if from > limit {
        OpeningPeerSkip(d, opening, closing, from, limit, limit, depth);
      }
    } else {
      OpeningPeerSkip(d, opening, closing, from, s.found, limit, depth);
      assert IsPeer(d, opening, closing, s.found);
    }
  }

  /** `findOpeningPeer`: the mirror image of `FindClosingPeer`, where closing peers deepen. */
  method FindOpeningPeer(d: Document, start: int, bound: int, opening: char, closing: char) returns (r: int)
    requires Consistent(d) && start < |d.text| && (bound == UNBOUND || bound >= -1)
    ensures r == OpeningPeerFrom(d, opening, closing, start, BackwardLimit(bound), 1)
  {
    var limit := BackwardLimit(bound);
    var depth := 1;
    var from := start;
    while true
      invariant from < |d.text| && depth >= 1
      invariant OpeningPeerFrom(d, opening, closing, start, limit, 1) == OpeningPeerFrom(d, opening, closing, from, limit, depth)
      decreases from - limit
    {
      var s := ScanBackward(d, CharacterMatch({opening, closing}), from, bound);
      OpeningPeerRound(d, opening, closing, from, limit, depth);
      if s.found == NOT_FOUND {
        return NOT_FOUND;
      }
      if d.text[s.found] == closing {
        depth := depth + 1;
      } else {
        depth := depth - 1;
      }
      if depth == 0 {
        return s.found;
      }
      from := s.found - 1;
    }
  }

  /** In a document of one default partition, `(a)` read from just after `(` closes at index 2. */
  lemma ClosingPeerExample()
    ensures var d := Document("(a)", p => Region(0, 3, true), c => c == ' ', c => 'a' <= c <= 'z');
            ClosingPeerFrom(d, '(', ')', 1, 3, 1) == 2
            && OpeningPeerFrom(d, '(', ')', 1, -1, 1) == 0
  {
  }

  // ---------------------------------------------------------------------
  // Blocks without braces

  predicate IsLoopOrCondition(t: Token)
  {
    t == IF || t == FOR || t == FOREACH || t == WHILE
  }

  /**
   * `isBracelessBlockStart`: false before position 1; true after `do` or
   * `else`, and after a `)` whose matching `(` is preceded by `if`,
   * `for`, `foreach` or `while`.
   */
  method IsBracelessBlockStart(d: Document, position: int, bound: int) returns (r: bool)
    requires Consistent(d)
    requires position < 1 || (position < |d.text| && (bound == UNBOUND || bound >= -1))
    ensures position < 1 ==> !r
    ensures position >= 1 ==>
              var prev := PreviousToken(d, position, bound);
              (prev.token == DO || prev.token == ELSE ==> r)
              && (prev.token == RPAREN ==>
                    var open := OpeningPeerFrom(d, '(', ')', prev.pos, -1, 1);
                    r == (open > 0 && IsLoopOrCondition(PreviousToken(d, open - 1, bound).token)))
              && (prev.token != DO && prev.token != ELSE && prev.token != RPAREN ==> !r)
  {
    if position < 1 {
      return false;
    }
    var prev := PreviousToken(d, position, bound);
    if prev.token == DO || prev.token == ELSE {
      return true;
    }
    if prev.token == RPAREN {
      var open := FindOpeningPeer(d, prev.pos, UNBOUND, '(', ')');
      if open > 0 {
        var before := PreviousToken(d, open - 1, bound);
        if IsLoopOrCondition(before.token) {
          return true;
        }
      }
    }
    return false;
  }
}
