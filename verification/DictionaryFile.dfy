/** The dictionary's text file: one line for each field, written and read back. */
module DictionaryFile {
  import opened Common
  import opened FastPrint

  type Fid = n: int | 0 <= n < 0x1_0000

  datatype Field = Field(fid: Fid, name: string, kind: int)

  // ---------- writing ----------

  /** What snprintf makes of a field: the line, cut to what a buffer of 256 holds. */
  function Line(f: Field): string {
    Decimal(f.fid) + "|" + f.name + "|" + Signed(f.kind) + "\n"
  }

  /** Decimal notation with a sign in front of a negative number. */
  function Signed(n: int): (s: string)
    ensures |s| >= 1
  {
    if n < 0 then "-" + Decimal(-n) else Decimal(n)
  }

  function Written(f: Field): string {
    if |Line(f)| < 256 then Line(f) else Line(f)[..255]
  }

  function FileOf(es: seq<Option<Field>>): string {
    if es == [] then ""
    else
      var rest := FileOf(es[..|es| - 1]);
      if es[|es| - 1].Some? then rest + Written(es[|es| - 1].value) else rest
  }

  // ---------- reading ----------

  predicate IsSpace(c: char) {
    c == ' ' || c == '\t' || c == '\n' || c == '\r' || c as int == 11 || c as int == 12
  }

  function Stripped(s: string): (r: string)
    ensures |r| <= |s| && r == s[..|r|]
    ensures forall k :: |r| <= k < |s| ==> IsSpace(s[k])
    ensures r != "" ==> !IsSpace(r[|r| - 1])
  {
    if s != "" && IsSpace(s[|s| - 1]) then Stripped(s[..|s| - 1]) else s
  }

  /** How many characters fgets takes when it may take `n`. */
  function Taken(text: string, n: nat): (k: nat)
    ensures k <= |text| && k <= n && (k == 0 <==> text == "" || n == 0)
  {
    if text == "" || n == 0 then 0
    else if text[0] == '\n' then 1
    else 1 + Taken(text[1..], n - 1)
  }

  /** The first bar from `k` on, or the end. */
  function Bar(s: string, k: nat): (i: nat)
    requires k <= |s|
    ensures k <= i <= |s| && (i < |s| ==> s[i] == '|')
    ensures forall j :: k <= j < i ==> s[j] != '|'
    decreases |s| - k
  {
    if k == |s| || s[k] == '|' then k else Bar(s, k + 1)
  }

  predicate IsDigit(c: char) {
    '0' <= c <= '9'
  }

  /** The digits in front of `s` as a number that continues `n`. */
  function Digits(s: string, n: nat): nat {
    if s != "" && IsDigit(s[0]) then Digits(s[1..], 10 * n + (s[0] as int - '0' as int)) else n
  }

  function Atoi(s: string): int {
    if s != "" && IsSpace(s[0]) then Atoi(s[1..])
    else if s != "" && s[0] == '-' then 0 - Digits(s[1..], 0)
    else if s != "" && s[0] == '+' then Digits(s[1..], 0)
    else Digits(s, 0)
  }

  /** The field that a line gives, if it has two bars. */
  function Parsed(line: string): Option<Field> {
    var s := Stripped(line);
    var i := Bar(s, 0);
    if i == |s| then None
    else
      var j := Bar(s, i + 1);
      if j == |s| then None
      else Some(Field(Atoi(s[..i]) % 0x1_0000, s[i + 1..j], Atoi(s[j + 1..])))
  }

  type Table = map<Fid, (string, int)>

  function Added(m: Table, f: Option<Field>): Table {
    if f.None? then m else m[f.value.fid := (f.value.name, f.value.kind)]
  }

  /** The table after a whole file has been read. */
  function Loaded(text: string, m: Table): Table
    decreases |text|
  {
    if text == "" then m
    else
      var k := Taken(text, 254);
      Loaded(text[k..], Added(m, Parsed(text[..k])))
  }

  // ---------- round trip ----------

  lemma {:induction false} DigitsOfDecimal(v: nat, n: nat)
    ensures Digits(Decimal(v), n) == n * Pow10(|Decimal(v)|) + v
    decreases v
  {
    if v < 10 {
      DigitValue(v);
      assert Decimal(v)[1..] == "" && Pow10(1) == 10;
    } else {
      DecimalIsDigits(v / 10);
      DigitsOfDecimal(v / 10, n);
      DigitsAppend(Decimal(v / 10), [Digit(v % 10)], n);
      DigitValue(v % 10);
      assert [Digit(v % 10)][1..] == "";
      assert Pow10(|Decimal(v)|) == 10 * Pow10(|Decimal(v / 10)|);
      Regroup(n, Pow10(|Decimal(v / 10)|), v);
    }
  }

  lemma Regroup(n: nat, p: nat, v: nat)
    ensures 10 * (n * p + v / 10) + v % 10 == n * (10 * p) + v
  {
    assert 10 * (n * p) == n * (10 * p);
  }

  lemma DigitValue(d: nat)
    requires d < 10
    ensures IsDigit(Digit(d)) && Digit(d) as int - '0' as int == d && !IsSpace(Digit(d)) && Digit(d) != '|'
    ensures Digit(d) != '-' && Digit(d) != '+' && Digit(d) != '\n'
  {
  }

  lemma {:induction false} DigitsAppend(s: string, t: string, n: nat)
    requires forall i :: 0 <= i < |s| ==> IsDigit(s[i])
    ensures Digits(s + t, n) == Digits(t, Digits(s, n))
    decreases |s|
  {
    if s == "" {
      assert s + t == t;
    } else {
      assert (s + t)[1..] == s[1..] + t;
      DigitsAppend(s[1..], t, 10 * n + (s[0] as int - '0' as int));
    }
  }

  lemma {:induction false} DecimalIsDigits(v: nat)
    ensures Decimal(v) != "" && forall i :: 0 <= i < |Decimal(v)| ==> IsDigit(Decimal(v)[i])
    ensures forall c <- Decimal(v) :: IsDigit(c) && !IsSpace(c) && c != '|' && c != '-' && c != '+' && c != '\n'
  {
    if v < 10 {
      DigitValue(v);
    } else {
      DecimalIsDigits(v / 10);
      DigitValue(v % 10);
    }
  }

  lemma AtoiOfDecimal(v: nat)
    ensures Atoi(Decimal(v)) == v
  {
    DecimalIsDigits(v);
    assert Decimal(v)[0] in Decimal(v);
    DigitsOfDecimal(v, 0);
  }

  lemma {:induction false} AtoiOfSigned(n: int)
    ensures Atoi(Signed(n)) == n
    ensures Signed(n) != "" && forall c <- Signed(n) :: !IsSpace(c) && c != '|' && c != '\n' && c != '\0'
  {
    hide Decimal;
    hide Digits;
    if n < 0 {
      DecimalIsDigits(-n);
      DigitsOfDecimal(-n, 0);
      assert ("-" + Decimal(-n))[1..] == Decimal(-n);
    } else {
      DecimalIsDigits(n);
      AtoiOfDecimal(n);
    }
  }

  /** A name that can stand between two bars on a line. */
  predicate PlainName(name: string) {
    forall c <- name :: c != '|' && c != '\n'
  }

  /** A field whose line, newline included, fits the buffer of 256. */
  predicate Plain(f: Field) {
    PlainName(f.name) && |Line(f)| <= 255
  }

  /** The line without its newline. */
  function Body(f: Field): string {
    Decimal(f.fid) + "|" + f.name + "|" + Signed(f.kind)
  }

  lemma BarIs(s: string, k: nat, i: nat)
    requires k <= i < |s| && s[i] == '|' && forall j :: k <= j < i ==> s[j] != '|'
    ensures Bar(s, k) == i
  {
  }

  lemma BarInside(s: string, k: nat)
    requires k <= |s|
    ensures k <= Bar(s, k) <= |s|
  {
  }

  lemma StrippedIs(s: string, t: string)
    requires s != "" && !IsSpace(s[|s| - 1]) && (t == s || t == s + "\n")
    ensures Stripped(t) == s
  {
    if t == s + "\n" {
      assert t[..|t| - 1] == s;
    }
  }

  /** The places of the pieces in the body of a line. */
  lemma BodyPieces(f: Field)
    requires PlainName(f.name)
    ensures var s, i := Body(f), |Decimal(f.fid)|;
      var j := i + 1 + |f.name|;
      && j + 1 < |s| && Bar(s, 0) == i && Bar(s, i + 1) == j
      && s[..i] == Decimal(f.fid) && s[i + 1..j] == f.name && s[j + 1..] == Signed(f.kind)
      && !IsSpace(s[|s| - 1])
      && forall c <- s :: c != '\n'
  {
    hide Decimal;
    hide Signed;
    hide Bar;
    hide Atoi;
    hide IsSpace;
    var s, i := Body(f), |Decimal(f.fid)|;
    var j := i + 1 + |f.name|;
    DecimalIsDigits(f.fid);
    AtoiOfSigned(f.kind);
    assert s[..i] == Decimal(f.fid);
    assert s[i + 1..j] == f.name;
    assert s[j + 1..] == Signed(f.kind);
    forall k | 0 <= k < i ensures s[k] != '|' && s[k] != '\n' {
      assert s[k] == Decimal(f.fid)[k] && Decimal(f.fid)[k] in Decimal(f.fid);
    }
    forall k | i < k < j ensures s[k] != '|' && s[k] != '\n' {
      assert s[k] == f.name[k - i - 1] && f.name[k - i - 1] in f.name;
    }
    forall k | j < k < |s| ensures s[k] != '\n' && !IsSpace(s[k]) {
      assert s[k] == Signed(f.kind)[k - j - 1] && Signed(f.kind)[k - j - 1] in Signed(f.kind);
    }
    BarIs(s, 0, i);
    BarIs(s, i + 1, j);
  }

  lemma ParsedIs(t: string, s: string, i: nat, j: nat, f: Field)
    requires Stripped(t) == s && i < j < |s| && Bar(s, 0) == i && Bar(s, i + 1) == j
    requires Atoi(s[..i]) == f.fid && s[i + 1..j] == f.name && Atoi(s[j + 1..]) == f.kind
    ensures Parsed(t) == Some(f)
  {
    hide Stripped;
    hide Bar;
    hide Atoi;
  }

  /** A written line, with or without its newline, gives its field back. */
  lemma ParsedLine(f: Field, t: string)
    requires PlainName(f.name) && (t == Body(f) || t == Body(f) + "\n")
    ensures Parsed(t) == Some(f)
  {
    hide *;
    BodyPieces(f);
    StrippedIs(Body(f), t);
    AtoiOfDecimal(f.fid);
    AtoiOfSigned(f.kind);
    ParsedIs(t, Body(f), |Decimal(f.fid)|, |Decimal(f.fid)| + 1 + |f.name|, f);
  }

  lemma {:induction false} TakenLine(body: string, rest: string, n: nat)
    requires (forall c <- body :: c != '\n') && |body| <= n
    ensures Taken(body + "\n" + rest, n) == if |body| < n then |body| + 1 else n
    decreases |body|
  {
    var text := body + "\n" + rest;
    if body != "" {
      assert body[0] in body;
      assert text[1..] == body[1..] + "\n" + rest;
      assert forall c <- body[1..] :: c in body;
      TakenLine(body[1..], rest, n - 1);
    }
  }

  lemma LoadStep(text: string, k: nat, m: Table)
    requires text != "" && Taken(text, 254) == k
    ensures Loaded(text, m) == Loaded(text[k..], Added(m, Parsed(text[..k])))
  {
  }

  lemma AddedSome(m: Table, f: Field)
    ensures Added(m, Some(f)) == m[f.fid := (f.name, f.kind)]
  {
  }

  lemma WrittenWhole(f: Field)
    requires Plain(f)
    ensures PlainName(f.name) && Written(f) == Body(f) + "\n" && |Body(f)| <= 254
  {
    assert Line(f) == Body(f) + "\n";
  }

  /** One written line at the front of a file. */
  lemma LoadedLine(f: Field, rest: string, m: Table)
    requires Plain(f)
    ensures Loaded(Written(f) + rest, m) == Loaded(rest, m[f.fid := (f.name, f.kind)])
  {
    hide *;
    WrittenWhole(f);
    BodyPieces(f);
    var body := Body(f);
    var text := Written(f) + rest;
    assert text == body + "\n" + rest;
    TakenLine(body, rest, 254);
    ParsedLine(f, body);
    ParsedLine(f, body + "\n");
    AddedSome(m, f);
    if |body| < 254 {
      assert text[..|body| + 1] == body + "\n" && text[|body| + 1..] == rest;
      LoadStep(text, |body| + 1, m);
    } else {
      assert text[..254] == body && text[254..] == "\n" + rest;
      LoadStep(text, 254, m);
      LoadedNewline(rest, m[f.fid := (f.name, f.kind)]);
    }
  }

  lemma LoadedNewline(rest: string, m: Table)
    ensures Loaded("\n" + rest, m) == Loaded(rest, m)
  {
    var text := "\n" + rest;
    assert text[..1] == "\n" && text[1..] == rest;
    assert Stripped("\n") == "" by { assert "\n"[..0] == ""; }
  }

  predicate AllPlain(es: seq<Option<Field>>) {
    forall i :: 0 <= i < |es| && es[i].Some? ==> Plain(es[i].value)
  }

  function AddAll(m: Table, es: seq<Option<Field>>): Table {
    if es == [] then m else Added(AddAll(m, es[..|es| - 1]), es[|es| - 1])
  }

  /** A file and its table, one field at a time from the end. */
  lemma LastField(es: seq<Option<Field>>, rest: string, m: Table)
    requires AllPlain(es) && es != []
    ensures var p, last := es[..|es| - 1], es[|es| - 1];
      && AllPlain(p)
      && (last.Some? ==> Plain(last.value) && FileOf(es) + rest == FileOf(p) + (Written(last.value) + rest))
      && (last.None? ==> FileOf(es) == FileOf(p))
      && AddAll(m, es) == Added(AddAll(m, p), last)
  {
    var p, last := es[..|es| - 1], es[|es| - 1];
    hide Written;
    if last.Some? {
      var w := Written(last.value);
      assert FileOf(p) + w + rest == FileOf(p) + (w + rest);
    }
  }

  lemma {:induction false} LoadedFile(es: seq<Option<Field>>, rest: string, m: Table)
    requires AllPlain(es)
    ensures Loaded(FileOf(es) + rest, m) == Loaded(rest, AddAll(m, es))
    decreases |es|, 1
  {
    if es == [] {
      assert FileOf(es) + rest == rest;
    } else {
      LoadedFileStep(es, rest, m);
    }
  }

  lemma {:induction false} LoadedFileStep(es: seq<Option<Field>>, rest: string, m: Table)
    requires AllPlain(es) && es != []
    ensures Loaded(FileOf(es) + rest, m) == Loaded(rest, AddAll(m, es))
    decreases |es|, 0
  {
    hide *;
    LastField(es, rest, m);
    var p, last := es[..|es| - 1], es[|es| - 1];
    if last.Some? {
      LoadedFile(p, Written(last.value) + rest, m);
      LoadedLine(last.value, rest, AddAll(m, p));
      AddedSome(AddAll(m, p), last.value);
    } else {
      LoadedFile(p, rest, m);
      AddedNone(AddAll(m, p));
    }
  }

  lemma AddedNone(m: Table)
    ensures Added(m, None) == m
  {
  }

  /** Fields stored under their own fids. */
  predicate Placed(es: seq<Option<Field>>) {
    forall i :: 0 <= i < |es| && es[i].Some? ==> es[i].value.fid == i
  }

  function Meaning(es: seq<Option<Field>>): Table
    requires |es| <= 0x1_0000 + 100
  {
    map i: Fid | 0 <= i < 0x1_0000 && i < |es| && es[i].Some? :: (es[i].value.name, es[i].value.kind)
  }

  lemma {:induction false} AddAllIsMeaning(es: seq<Option<Field>>)
    requires Placed(es) && |es| <= 0x1_0000 + 100
    ensures AddAll(map[], es) == Meaning(es)
  {
    if es != [] {
      var p, last := es[..|es| - 1], es[|es| - 1];
      AddAllIsMeaning(p);
    }
  }

  /** Reading a written dictionary into an empty one restores what every fid stood for, when names
    * hold no bar or newline and the lines fit the buffer. */
  lemma {:induction false} ReadingBackRestores(es: seq<Option<Field>>)
    requires Placed(es) && AllPlain(es) && |es| <= 0x1_0000 + 100
    ensures Loaded(FileOf(es), map[]) == Meaning(es)
  {
    LoadedFile(es, "", map[]);
    assert FileOf(es) + "" == FileOf(es);
    AddAllIsMeaning(es);
  }

  lemma NothingStored()
    ensures Meaning([]) == map[]
  {
  }

  lemma Stored(es: seq<Option<Field>>, f: Field)
    requires Placed(es) && f.fid < |es| <= 0x1_0000 + 100
    ensures Placed(es[f.fid := Some(f)])
    ensures Meaning(es[f.fid := Some(f)]) == Meaning(es)[f.fid := (f.name, f.kind)]
  {
  }

  // ---------- what a file looks like ----------

  /** The two lines of a dictionary with two fields. */
  lemma {:induction false} TwoLines()
    ensures FileOf([Some(Field(5, "wPrice", 27)), None, Some(Field(17, "wSize", -3))]) == "5|wPrice|27\n17|wSize|-3\n"
  {
    hide Decimal;
    hide Written;
    FewDecimals();
    ShortLine(Field(5, "wPrice", 27));
    ShortLine(Field(17, "wSize", -3));
    var p, s := Some(Field(5, "wPrice", 27)), Some(Field(17, "wSize", -3));
    assert [p][..0] == [] && [p, None][..1] == [p] && [p, None, s][..2] == [p, None];
    assert Line(p.value) == "5|wPrice|27\n" && Line(s.value) == "17|wSize|-3\n";
    assert FileOf([p]) == "" + "5|wPrice|27\n";
  }

  lemma ShortLine(f: Field)
    ensures |Line(f)| < 256 ==> Written(f) == Line(f)
  {
  }

  lemma FewDecimals()
    ensures Decimal(27) == "27" && Decimal(17) == "17" && Decimal(3) == "3" && Decimal(5) == "5"
  {
  }

  /** The characters that isspace accepts. */
  predicate Blank(s: string) {
    forall c <- s :: c in {' ', '\t', '\n', '\r'} || c as int == 11 || c as int == 12
  }

  /** White space at the end is taken off, and nothing else. */
  lemma {:induction false} StripsBlanks(s: string, t: string)
    requires Blank(t) && (s == "" || !Blank(s[|s| - 1..]))
    ensures Stripped(s + t) == s
  {
    if t == "" {
      assert s + t == s;
      if s != "" {
        assert s[|s| - 1..] == [s[|s| - 1]];
      }
    } else {
      var n := |t| - 1;
      assert t[n] in t && Blank(t[..n]) by {
        assert forall c <- t[..n] :: c in t;
      }
      assert (s + t)[..|s| + n] == s + t[..n];
      StripsBlanks(s, t[..n]);
    }
  }

  /** A number may have white space and a sign in front, and ends at the first character that is no digit. */
  lemma {:induction false} AtoiReads(blanks: string, sign: string, v: nat, rest: string)
    requires Blank(blanks) && sign in {"", "+", "-"} && (rest == "" || !('0' <= rest[0] <= '9'))
    ensures var n: int := v; Atoi(blanks + (sign + (Decimal(v) + rest))) == if sign == "-" then -n else n
  {
    var number := sign + (Decimal(v) + rest);
    if blanks == "" {
      assert blanks + number == number;
      DecimalIsDigits(v);
      DigitsAppend(Decimal(v), rest, 0);
      DigitsOfDecimal(v, 0);
      assert Digits(Decimal(v) + rest, 0) == v;
      if sign == "" {
        assert number == Decimal(v) + rest;
        assert number[0] == Decimal(v)[0] && Decimal(v)[0] in Decimal(v);
      } else {
        assert number[1..] == Decimal(v) + rest;
      }
    } else {
      assert blanks[0] in blanks && Blank(blanks[1..]) by {
        assert forall c <- blanks[1..] :: c in blanks;
      }
      assert (blanks + number)[1..] == blanks[1..] + number;
      AtoiReads(blanks[1..], sign, v, rest);
    }
  }

  /** A text that begins with none of these is 0. */
  lemma AtoiOfOther(s: string)
    requires s == "" || !(Blank(s[..1]) || s[0] == '-' || s[0] == '+' || '0' <= s[0] <= '9')
    ensures Atoi(s) == 0
  {
    assert s != "" ==> s[..1] == [s[0]];
  }

  /** A line whose fid and kind are numbers, with anything behind them: the fid is cut to 16 bits. */
  lemma {:induction false} LineIsRead(v: nat, name: string, n: int, rest: string, blanks: string)
    requires (forall c <- name :: c != '|') && Blank(blanks)
    requires rest == "" || (!('0' <= rest[0] <= '9') && !Blank(rest[|rest| - 1..]))
    ensures Parsed(Decimal(v) + "|" + name + "|" + Signed(n) + rest + blanks) == Some(Field(v % 0x1_0000, name, n))
  {
    hide *;
    var s := Decimal(v) + "|" + name + "|" + Signed(n) + rest;
    var i := |Decimal(v)|;
    LinePieces(v, name, n, rest);
    StripsBlanks(s, blanks);
    AtoiOfDecimal(v);
    AtoiOfSignedRest(n, rest);
    PiecesParsed(s + blanks, s, i, i + 1 + |name|, name, v, n);
  }

  /** Three strings with bars between them. */
  lemma Pieces(d: string, name: string, k: string)
    requires forall c <- d + name :: c != '|'
    ensures var s, i, j := d + "|" + name + "|" + k, |d|, |d| + 1 + |name|;
      && j < |s| && Bar(s, 0) == i && Bar(s, i + 1) == j
      && s[..i] == d && s[i + 1..j] == name && s[j + 1..] == k
  {
    hide Bar;
    var s, i, j := d + "|" + name + "|" + k, |d|, |d| + 1 + |name|;
    forall x | 0 <= x < i ensures s[x] != '|' {
      assert s[x] == (d + name)[x] && (d + name)[x] in d + name;
    }
    forall x | i < x < j ensures s[x] != '|' {
      assert s[x] == (d + name)[x - 1] && (d + name)[x - 1] in d + name;
    }
    BarIs(s, 0, i);
    BarIs(s, i + 1, j);
  }

  lemma LastOfSum(s: string, k: string)
    ensures k != "" ==> (s + k)[|s| + |k| - 1..] == k[|k| - 1..]
    ensures k == "" ==> s + k == s
  {
  }

  lemma LinePieces(v: nat, name: string, n: int, rest: string)
    requires forall c <- name :: c != '|'
    requires rest == "" || !Blank(rest[|rest| - 1..])
    ensures var s, i := Decimal(v) + "|" + name + "|" + Signed(n) + rest, |Decimal(v)|;
      var j := i + 1 + |name|;
      && j < |s| && Bar(s, 0) == i && Bar(s, i + 1) == j
      && s[..i] == Decimal(v) && s[i + 1..j] == name && s[j + 1..] == Signed(n) + rest
      && !Blank(s[|s| - 1..])
  {
    hide *;
    var d, k := Decimal(v), Signed(n) + rest;
    DecimalIsDigits(v);
    SignedEnds(n);
    Pieces(d, name, k);
    Associative(d + "|" + name + "|", Signed(n), rest);
    LastOfSum(d + "|" + name + "|", k);
    LastOfSum(Signed(n), rest);
  }

  lemma SignedEnds(n: int)
    ensures Signed(n) != "" && !Blank(Signed(n)[|Signed(n)| - 1..])
  {
    hide Signed;
    AtoiOfSigned(n);
    var s := Signed(n);
    assert s[|s| - 1] in s[|s| - 1..] && s[|s| - 1] in s;
  }

  lemma AtoiOfSignedRest(n: int, rest: string)
    requires rest == "" || !('0' <= rest[0] <= '9')
    ensures Atoi(Signed(n) + rest) == n
  {
    hide Atoi;
    hide Decimal;
    var sign, v := if n < 0 then "-" else "", if n < 0 then -n else n;
    AtoiReads("", sign, v, rest);
    assert "" + (sign + (Decimal(v) + rest)) == Signed(n) + rest;
  }

  lemma PiecesParsed(t: string, s: string, i: nat, j: nat, name: string, v: nat, n: int)
    requires Stripped(t) == s && i < j < |s| && Bar(s, 0) == i && Bar(s, i + 1) == j
    requires Atoi(s[..i]) == v && s[i + 1..j] == name && Atoi(s[j + 1..]) == n
    ensures Parsed(t) == Some(Field(v % 0x1_0000, name, n))
  {
    hide Stripped;
    hide Bar;
    hide Atoi;
  }

  /** A line with fewer than two bars is passed over. */
  lemma {:induction false} JunkIsPassedOver(line: string, rest: string, m: Table)
    requires (forall c <- line :: c != '\n') && |line| < 254
    requires forall i, j :: 0 <= i < j < |line| ==> line[i] != '|' || line[j] != '|'
    ensures Loaded(line + "\n" + rest, m) == Loaded(rest, m)
  {
    hide *;
    var text := line + "\n" + rest;
    TakenLine(line, rest, 254);
    LoadStep(text, |line| + 1, m);
    assert text[..|line| + 1] == line + "\n" && text[|line| + 1..] == rest;
    NoTwoBars(line);
    AddedNone(m);
  }

  lemma NoTwoBars(line: string)
    requires forall i, j :: 0 <= i < j < |line| ==> line[i] != '|' || line[j] != '|'
    ensures Parsed(line + "\n") == None
  {
    var t := line + "\n";
    var s := Stripped(t);
    assert t[|line|] == '\n';
    assert |s| <= |line|;
    assert s == line[..|s|];
    var i := Bar(s, 0);
    if i < |s| {
      assert forall j :: i < j < |s| ==> s[j] != '|';
    }
  }

  // ---------- the dictionary ----------

  class Dictionary {
    var dict: array?<Option<Field>>
    var maxFid: Fid
    var size: nat

    ghost predicate Valid()
      reads this, dict
    {
      dict != null ==>
        && maxFid < dict.Length <= 0x1_0000 + 100
        && Placed(dict[..])
    }

    ghost function Fields(): seq<Option<Field>>
      reads this, dict
    {
      if dict == null then [] else dict[..]
    }

    /** What each fid stands for. */
    ghost function Contents(): Table
      requires Valid()
      reads this, dict
    {
      Meaning(Fields())
    }

    constructor ()
      ensures Valid() && Contents() == map[] && dict == null
    {
      dict, maxFid, size := null, 0, 0;
    }

    method CreateDictArray()
      requires Valid() && dict == null
      modifies this`dict
      ensures dict != null && fresh(dict) && Valid() && Contents() == map[] && dict.Length == maxFid + 1
    {
      dict := new Option<Field>[maxFid + 1](_ => None);
    }

    /** Makes room for a fid: the array grows to 100 more elements than the fid. */
    method EnsureCapacity(fid: Fid)
      requires Valid() && dict != null
      modifies this`dict, this`maxFid
      ensures Valid() && Contents() == old(Contents())
      ensures dict != null && fid < dict.Length && (dict == old(dict) || fresh(dict))
      ensures dict.Length == if fid < old(dict.Length) then old(dict.Length) else fid + 100
      ensures maxFid == if fid > old(maxFid) then fid else old(maxFid)
    {
      if fid > maxFid {
        maxFid := fid;
      }
      if fid + 1 > dict.Length {
        var smaller: array<Option<Field>> := dict;
        var larger := new Option<Field>[fid + 100](_ => None);
        var i := 0;
        while i < smaller.Length
          invariant 0 <= i <= smaller.Length
          invariant forall k :: 0 <= k < i ==> larger[k] == smaller[k]
          invariant forall k :: i <= k < larger.Length ==> larger[k] == None
          modifies larger
        {
          larger[i] := smaller[i];
          i := i + 1;
        }
        assert Meaning(larger[..]) == Meaning(smaller[..]);
        dict := larger;
      }
    }

    method CreateFieldDescriptor(fid: Fid, name: string, kind: int)
      requires Valid()
      modifies this, dict
      ensures Valid() && Contents() == old(Contents())[fid := (name, kind)]
      ensures dict != null && (dict == old(dict) || fresh(dict))
    {
      hide Meaning;
      hide Placed;
      NothingStored();
      if dict == null {
        CreateDictArray();
      }
      EnsureCapacity(fid);
      Stored(dict[..], Field(fid, name, kind));
      ghost var before := dict[..];
      dict[fid] := Some(Field(fid, name, kind));
      assert dict[..] == before[fid := Some(Field(fid, name, kind))];
      size := size + 1;
    }

    /** The text of the file; without an array there are no fields. */
    method WriteToFile() returns (file: string)
      requires Valid()
      ensures file == FileOf(Fields())
    {
      file := "";
      if dict == null {
        return;
      }
      var i := 0;
      while i < dict.Length
        invariant 0 <= i <= dict.Length
        invariant file == FileOf(dict[..i])
      {
        assert dict[..i + 1][..i] == dict[..i];
        if dict[i].Some? {
          file := file + Written(dict[i].value);
        }
        i := i + 1;
      }
      assert dict[..i] == dict[..];
    }

    /** Reads lines until the end; a line without two bars is passed over. */
    method PopulateFromFile(text: string)
      requires Valid() && '\0' !in text
      modifies this, dict
      ensures Valid() && Contents() == Loaded(text, old(Contents()))
    {
      var rest := text;
      while rest != ""
        invariant Valid() && Loaded(rest, Contents()) == Loaded(text, old(Contents()))
        invariant (dict == old(dict) || fresh(dict)) && '\0' !in rest
        decreases |rest|
      {
        var k := Gets(rest, 254);
        var f := ParseLine(rest[..k]);
        LoadStep(rest, k, Contents());
        if f.Some? {
          CreateFieldDescriptor(f.value.fid, f.value.name, f.value.kind);
        }
        rest := rest[k..];
      }
    }
  }

  /** A dictionary written to a file and read back into a new one stands for the same. */
  method WriteAndReadBack(d: Dictionary) returns (e: Dictionary)
    requires d.Valid() && AllPlain(d.Fields())
    requires forall i :: 0 <= i < |d.Fields()| && d.Fields()[i].Some? ==> '\0' !in d.Fields()[i].value.name
    ensures d.Valid() && e.Valid() && fresh(e) && e.Contents() == d.Contents()
  {
    ReadingBackRestores(d.Fields());
    var file := d.WriteToFile();
    NoNul(d.Fields());
    e := new Dictionary();
    e.PopulateFromFile(file);
  }

  lemma NoNulLine(f: Field)
    requires '\0' !in f.name
    ensures '\0' !in Written(f)
  {
    hide Decimal;
    hide Signed;
    DecimalIsDigits(f.fid);
    AtoiOfSigned(f.kind);
  }

  lemma {:induction false} NoNul(es: seq<Option<Field>>)
    requires forall i :: 0 <= i < |es| && es[i].Some? ==> '\0' !in es[i].value.name
    ensures '\0' !in FileOf(es)
  {
    if es != [] {
      hide Written;
      NoNul(es[..|es| - 1]);
      if es[|es| - 1].Some? {
        NoNulLine(es[|es| - 1].value);
      }
    }
  }

  /** fgets: a line, or as much of it as the buffer takes. */
  method Gets(text: string, n: nat) returns (k: nat)
    ensures k == Taken(text, n)
  {
    k := 0;
    assert text[0..] == text;
    while k < |text| && k < n
      invariant k <= |text| && k <= n && Taken(text, n) == k + Taken(text[k..], n - k)
    {
      assert text[k..][0] == text[k] && text[k..][1..] == text[k + 1..];
      if text[k] == '\n' {
        k := k + 1;
        return;
      }
      k := k + 1;
    }
  }

  // ---------- a line, in its buffer ----------

  /** The C string that starts at `k`. */
  function CString(s: seq<char>, k: nat): string
    requires k <= |s|
    decreases |s| - k
  {
    if k == |s| || s[k] == '\0' then "" else [s[k]] + CString(s, k + 1)
  }

  lemma {:induction false} CStringIs(s: seq<char>, k: nat, e: nat)
    requires k <= e < |s| && s[e] == '\0' && forall j :: k <= j < e ==> s[j] != '\0'
    ensures CString(s, k) == s[k..e]
    decreases e - k
  {
    if k < e {
      CStringIs(s, k + 1, e);
      assert s[k..e] == [s[k]] + s[k + 1..e];
    }
  }

  /** Overwrites trailing white space with terminators. */
  method StripTrailingWhiteSpace(buf: array<char>, n: nat) returns (len: nat)
    requires n < buf.Length && buf[n] == '\0'
    modifies buf
    ensures len <= n && buf[..len] == Stripped(old(buf[..n])) && buf[..len] == old(buf[..len]) && buf[len] == '\0'
  {
    len := n;
    while len > 0 && IsSpace(buf[len - 1])
      invariant len <= n && buf[..len] == old(buf[..len]) && buf[len] == '\0'
      invariant Stripped(old(buf[..n])) == Stripped(buf[..len])
    {
      assert buf[..len][..len - 1] == buf[..len - 1];
      buf[len - 1] := '\0';
      len := len - 1;
    }
  }

  /** strchr and strrchr find two different bars. */
  method ValidateDelimLine(buf: array<char>, len: nat) returns (ok: bool)
    requires len <= buf.Length
    ensures ok <==> Bar(buf[..len], 0) < len && Bar(buf[..len], Bar(buf[..len], 0) + 1) < len
  {
    ghost var s := buf[..len];
    var first := 0;
    while first < len && buf[first] != '|'
      invariant first <= len && Bar(s, 0) == Bar(s, first)
    {
      first := first + 1;
    }
    if first == len {
      return false;
    }
    var last := len - 1;
    while buf[last] != '|'
      invariant first <= last < len && forall k :: last < k < len ==> s[k] != '|'
      decreases last
    {
      last := last - 1;
    }
    ok := first != last;
  }

  /** Ends the string before the next bar at or after `c` and returns the place behind it. */
  method GetNextDelimStr(buf: array<char>, c: nat, ghost at: nat) returns (n: nat)
    requires c <= at < buf.Length && buf[at] == '|' && forall k :: c <= k < at ==> buf[k] != '|'
    modifies buf
    ensures n == at + 1 && buf[..] == old(buf[..])[at := '\0']
  {
    n := c;
    while buf[n] != '|'
      invariant c <= n <= at && buf[..] == old(buf[..])
      decreases at - n
    {
      n := n + 1;
    }
    buf[n] := '\0';
    n := n + 1;
  }

  /** The field of a line, if there is one; the buffer is cut in place at the bars. */
  method ParseLine(line: string) returns (r: Option<Field>)
    requires '\0' !in line
    ensures r == Parsed(line)
  {
    hide Atoi;
    hide Stripped;
    hide Bar;
    hide IsSpace;
    var buf := new char[|line| + 1](k requires 0 <= k <= |line| => if k < |line| then line[k] else '\0');
    assert buf[..|line|] == line;
    var len := StripTrailingWhiteSpace(buf, |line|);
    assert buf[..len] == line[..len];
    var ok := ValidateDelimLine(buf, len);
    if !ok {
      return None;
    }
    BarInside(buf[..len], 0);
    BarInside(buf[..len], Bar(buf[..len], 0) + 1);
    ghost var s := buf[..len];
    var f := CutLine(buf, len, Bar(s, 0), Bar(s, Bar(s, 0) + 1));
    r := Some(f);
  }

  /** The three strings of a line with bars at `i` and `j`. */
  method CutLine(buf: array<char>, len: nat, ghost i: nat, ghost j: nat) returns (f: Field)
    requires i < j < len < buf.Length && buf[len] == '\0' && forall k :: 0 <= k < len ==> buf[k] != '\0'
    requires Bar(buf[..len], 0) == i && Bar(buf[..len], i + 1) == j
    modifies buf
    ensures var s := old(buf[..len]);
      f == Field(Atoi(s[..i]) % 0x1_0000, s[i + 1..j], Atoi(s[j + 1..]))
  {
    hide Atoi;
    ghost var s := buf[..len];
    assert s[i] == '|' && s[j] == '|';
    var fieldName := GetNextDelimStr(buf, 0, i);
    var typeStr := GetNextDelimStr(buf, 0, j);
    CStringIs(buf[..], 0, i);
    CStringIs(buf[..], fieldName, j);
    CStringIs(buf[..], typeStr, len);
    assert buf[..][0..i] == s[..i] && buf[..][i + 1..j] == s[i + 1..j] && buf[..][j + 1..len] == s[j + 1..];
    f := Field(Atoi(CString(buf[..], 0)) % 0x1_0000, CString(buf[..], fieldName), Atoi(CString(buf[..], typeStr)));
  }
}
