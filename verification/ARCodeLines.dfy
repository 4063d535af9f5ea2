/** Lines as a person writes them: digits of either case, indentation, comments, and what is malformed. */
module ARCodeLines {
  import opened Basics
  import opened ARCodeText
  import opened ARCodeTheorems

  const CAPITALS := "0123456789ABCDEF"

  const SMALL := "0123456789abcdef"

  /** Eight hexadecimal digits, each a capital or a small one, and what they stand for. */
  predicate Spells(text: string, digits: seq<nat>) {
    |text| == |digits| == 8
    && forall i :: 0 <= i < 8 ==> digits[i] < 16 && (text[i] == CAPITALS[digits[i]] || text[i] == SMALL[digits[i]])
  }

  function Number(d: seq<nat>): nat
    requires |d| == 8
  {
    d[0] * 0x1000_0000 + d[1] * 0x100_0000 + d[2] * 0x10_0000 + d[3] * 0x1_0000
    + d[4] * 0x1000 + d[5] * 0x100 + d[6] * 0x10 + d[7]
  }

  lemma DigitIs(c: char, d: nat)
    requires d < 16 && (c == CAPITALS[d] || c == SMALL[d])
    ensures IsHex(c) && HexDigit(c) == d && !IsSpace(c)
    ensures c !in {'-', '+', 'x', 'X', '#', '\r', '\n', '\0', ' ', '\t', 'O', 'T', 'o', 't'}
  {
    if d < 10 {
      assert CAPITALS[d] == SMALL[d] == '0' + d as char by { Digits(d); }
    } else {
      Letters(d);
    }
  }

  lemma Digits(d: nat)
    requires d < 10
    ensures CAPITALS[d] == SMALL[d] == '0' + d as char
  {
    assert CAPITALS[..10] == "0123456789" == SMALL[..10];
    assert d == 0 || d == 1 || d == 2 || d == 3 || d == 4 || d == 5 || d == 6 || d == 7 || d == 8 || d == 9;
  }

  lemma Letters(d: nat)
    requires 10 <= d < 16
    ensures CAPITALS[d] == 'A' + (d - 10) as char && SMALL[d] == 'a' + (d - 10) as char
  {
    assert d == 10 || d == 11 || d == 12 || d == 13 || d == 14 || d == 15;
  }

  lemma {:induction false} ValueAppend(s: string, c: char)
    requires (forall i :: 0 <= i < |s| ==> IsHex(s[i])) && IsHex(c)
    ensures HexValue(s + [c]) == 16 * HexValue(s) + HexDigit(c)
  {
    assert (s + [c])[..|s|] == s;
  }

  lemma PrefixValue(text: string, digits: seq<nat>, n: nat)
    requires Spells(text, digits) && n < 8
    ensures forall i :: 0 <= i < 8 ==> IsHex(text[i])
    ensures HexValue(text[..n + 1]) == 16 * HexValue(text[..n]) + digits[n]
  {
    hide HexValue;
    forall i | 0 <= i < 8
      ensures IsHex(text[i]) && HexDigit(text[i]) == digits[i]
    {
      DigitIs(text[i], digits[i]);
    }
    assert text[..n + 1] == text[..n] + [text[n]];
    ValueAppend(text[..n], text[n]);
  }

  lemma SpelledValue(text: string, digits: seq<nat>)
    requires Spells(text, digits)
    ensures forall i :: 0 <= i < 8 ==> IsHex(text[i])
    ensures HexValue(text) == Number(digits) < 0x1_0000_0000
  {
    hide HexValue, Spells;
    assert HexValue("") == 0 by { NoDigits(); }
    assert text[..0] == "" && text[..8] == text by { assert |text| == 8 by { EightLong(text, digits); } }
    PrefixValue(text, digits, 0);
    PrefixValue(text, digits, 1);
    PrefixValue(text, digits, 2);
    PrefixValue(text, digits, 3);
    PrefixValue(text, digits, 4);
    PrefixValue(text, digits, 5);
    PrefixValue(text, digits, 6);
    PrefixValue(text, digits, 7);
    EightLong(text, digits);
  }

  lemma EightLong(text: string, digits: seq<nat>)
    requires Spells(text, digits)
    ensures |text| == |digits| == 8 && forall i :: 0 <= i < 8 ==> digits[i] < 16
  {
  }

  lemma NoDigits()
    ensures HexValue("") == 0
  {
  }

  /** A number is scanned off the front of a line, a blank before it or not. */
  lemma ScansNumber(text: string, digits: seq<nat>, blank: bool, rest: string)
    requires Spells(text, digits)
    ensures Number(digits) < 0x1_0000_0000
    ensures ScanHex((if blank then " " else "") + text + rest) == Some((Number(digits), rest))
  {
    hide HexValue, SkipSpace, Span, IsSpace, IsHex, Number, Spells;
    SpelledValue(text, digits);
    EightLong(text, digits);
    var t := text + rest;
    NumberScans(text, digits, rest);
    SkipOneSpace(blank, t);
    assert (if blank then " " else "") + text + rest == (if blank then " " else "") + t;
    assert t[0..] == t;
  }

  lemma NumberScans(text: string, digits: seq<nat>, rest: string)
    requires Spells(text, digits)
    ensures var t := text + rest;
            && !IsSpace(t[0]) && t[0] !in {'-', '+'} && t[1] !in {'x', 'X'}
            && Span(t, IsHex, 8) == 8 && t[..8] == text && t[8..] == rest
  {
    hide Span, IsSpace, IsHex;
    var t := text + rest;
    forall i | 0 <= i < 8
      ensures IsHex(t[i])
    {
      DigitIs(text[i], digits[i]);
    }
    DigitIs(text[0], digits[0]);
    DigitIs(text[1], digits[1]);
    SpanIs(t, IsHex, 8, 8);
  }

  // ---------------------------------------------------------------- other forms of numbers

  /** Any number of hexadecimal digits. */
  predicate Digits16(text: string, digits: seq<nat>) {
    |text| == |digits|
    && forall i :: 0 <= i < |text| ==>
         digits[i] < 16 && (text[i] == CAPITALS[digits[i]] || text[i] == SMALL[digits[i]])
  }

  function Horner(d: seq<nat>): nat { if d == [] then 0 else 16 * Horner(d[..|d| - 1]) + d[|d| - 1] }

  lemma {:induction false} HornerValue(text: string, digits: seq<nat>)
    requires Digits16(text, digits)
    ensures forall i :: 0 <= i < |text| ==> IsHex(text[i])
    ensures HexValue(text) == Horner(digits)
  {
    if text != "" {
      var n := |text| - 1;
      HornerValue(text[..n], digits[..n]);
      DigitIs(text[n], digits[n]);
      forall i | 0 <= i < |text|
        ensures IsHex(text[i])
      {
        DigitIs(text[i], digits[i]);
      }
    }
  }

  predicate IsSign(s: string) { |s| == 0 || (|s| == 1 && (s[0] == '+' || s[0] == '-')) }

  predicate Negative(s: string) { |s| == 1 && s[0] == '-' }

  predicate IsPrefix(s: string) { |s| == 0 || (|s| == 2 && s[0] == '0' && (s[1] == 'x' || s[1] == 'X')) }

  /** A sign before something that is none is seen as such. */
  lemma SignSeen(sign: string, u: string)
    requires IsSign(sign) && u != "" && !IsSpace(u[0]) && u[0] != '-' && u[0] != '+'
    ensures var t := sign + u;
            && t != "" && SkipSpace(t) == t && t[|sign|..] == u
            && (t[0] == '-' <==> Negative(sign)) && (t[0] == '-' || t[0] == '+' <==> |sign| == 1) && |sign| <= 1
  {
    var t := sign + u;
    if |sign| == 0 {
      assert t == u;
    } else {
      assert t[0] == sign[0];
    }
    SpanIs(t, IsSpace, |t|, 0);
  }

  /** So is a prefix, before digits that do not look like one. */
  lemma PrefixSeen(prefix: string, w: string)
    requires IsPrefix(prefix) && w != "" && w[0] != '-' && w[0] != '+' && !IsSpace(w[0])
    requires |prefix| == 0 && |w| > 1 && w[0] == '0' ==> w[1] != 'x' && w[1] != 'X'
    ensures var u := prefix + w;
            && u != "" && !IsSpace(u[0]) && u[0] != '-' && u[0] != '+' && u[|prefix|..] == w
            && (|u| > 1 && u[0] == '0' && (u[1] == 'x' || u[1] == 'X') <==> |prefix| == 2)
            && (|prefix| == 0 || |prefix| == 2)
  {
    var u := prefix + w;
    if |prefix| == 0 {
      assert u == w;
    } else {
      assert u[0] == prefix[0] && u[1] == prefix[1];
    }
  }

  lemma DigitsSeen(text: string, digits: seq<nat>, rest: string, limit: nat)
    requires Digits16(text, digits) && text != "" && |text| <= limit
    requires |text| == limit || rest == "" || !IsHex(rest[0])
    ensures var w := text + rest;
            && w != "" && w[0] != '-' && w[0] != '+' && !IsSpace(w[0])
            && (|text| > 1 ==> w[1] != 'x' && w[1] != 'X') && (w[0] == '0' ==> digits[0] == 0)
            && (|text| == 1 && |w| > 1 ==> rest != "" && w[1] == rest[0])
            && Span(w, IsHex, limit) == |text| && w[..|text|] == text && w[|text|..] == rest
  {
    hide Span, IsSpace;
    var w := text + rest;
    HornerValue(text, digits);
    DigitIs(text[0], digits[0]);
    if |text| > 1 {
      DigitIs(text[1], digits[1]);
    }
    assert |text| < |w| ==> w[|text|] == rest[0];
    SpanIs(w, IsHex, limit, |text|);
  }

  /** The scanner on a text whose sign, prefix and digits are known. */
  lemma ScanByParts(t: string, u: string, w: string, k: nat, p: nat, n: nat)
    requires t != "" && SkipSpace(t) == t && k <= 1 && (t[0] == '-' || t[0] == '+' <==> k == 1) && t[k..] == u
    requires (p == 0 || p == 2) && p <= |u| && (|u| > 1 && u[0] == '0' && (u[1] == 'x' || u[1] == 'X') <==> p == 2)
    requires u[p..] == w && n > 0 && Span(w, IsHex, 8 - k - p) == n
    ensures ScanHex(t) == Some(((if t[0] == '-' then 0 - HexValue(w[..n]) else HexValue(w[..n])) % 0x1_0000_0000,
                                w[n..]))
  {
    hide HexValue, SkipSpace, Span;
  }

  /**
   * A number may be shorter, signed and prefixed: up to eight characters count,
   * sign and prefix among them, a minus negates modulo 2^32, and what follows is
   * left for the next number.
   */
  lemma ScansSigned(sign: string, prefix: string, text: string, digits: seq<nat>, rest: string)
    requires IsSign(sign) && IsPrefix(prefix) && Digits16(text, digits) && text != ""
    requires |sign| + |prefix| + |text| <= 8
    requires |sign| + |prefix| + |text| == 8 || rest == "" || !IsHex(rest[0])
    requires |prefix| == 0 && |text| == 1 && digits[0] == 0 && rest != "" ==> rest[0] != 'x' && rest[0] != 'X'
    ensures ScanHex(sign + (prefix + (text + rest)))
            == Some(((if Negative(sign) then 0 - Horner(digits) else Horner(digits)) % 0x1_0000_0000, rest))
  {
    hide HexValue, Horner, SkipSpace, Span, IsHex, IsSpace, Digits16, IsSign, IsPrefix, Negative, ScanHex;
    var w := text + rest;
    HornerValue(text, digits);
    DigitsSeen(text, digits, rest, 8 - |sign| - |prefix|);
    PrefixSeen(prefix, w);
    SignSeen(sign, prefix + w);
    ScanByParts(sign + (prefix + w), prefix + w, w, |sign|, |prefix|, |text|);
  }

  lemma DecimalsSeen(digits: string, rest: string)
    requires digits != "" && forall i :: 0 <= i < |digits| ==> '0' <= digits[i] <= '9'
    requires rest == "" || !('0' <= rest[0] <= '9')
    ensures var u := digits + rest;
            && u != "" && u[0] != '-' && u[0] != '+' && !IsSpace(u[0])
            && Span(u, IsDigit, |u|) == |digits| && u[..|digits|] == digits && u[|digits|..] == rest
  {
    hide Span;
    var u := digits + rest;
    assert u[0] == digits[0];
    assert |digits| < |u| ==> u[|digits|] == rest[0];
    SpanIs(u, IsDigit, |u|, |digits|);
  }

  /** A code is enabled if the number in its line is not zero, however it is written. */
  lemma EnabledUnlessZero(sign: string, digits: string, rest: string)
    requires IsSign(sign) && digits != ""
    requires forall i :: 0 <= i < |digits| ==> '0' <= digits[i] <= '9'
    requires rest == "" || !('0' <= rest[0] <= '9')
    ensures ScanInt(sign + (digits + rest)) == Some((exists c <- digits :: c != '0', rest))
  {
    hide SkipSpace, Span, IsDigit, IsSpace, IsSign, Negative;
    DecimalsSeen(digits, rest);
    SignSeen(sign, digits + rest);
    var t := sign + (digits + rest);
    assert |sign| == 0 ==> t[|sign|..] == t;
  }

  // ---------------------------------------------------------------- lines

  /** Spaces and tabs. */
  predicate Blanks(s: string) { forall i :: 0 <= i < |s| ==> s[i] == ' ' || s[i] == '\t' }

  /** Leading blanks are skipped. */
  lemma Indented(blanks: string, line: string)
    requires Blanks(blanks) && line != "" && line[0] != ' ' && line[0] != '\t' && NoNul(line)
    ensures StartOf(blanks + line) == line
  {
    var text := blanks + line;
    CStringWhole(text);
    SpanIs(text, IsBlank, |text|, |blanks|);
  }

  /** Two numbers of either case on a line of their own, indented or not: they go onto the code under way. */
  lemma LoadsNumbers(s: Loading, blanks: string, a: string, da: seq<nat>, b: string, db: seq<nat>)
    requires Blanks(blanks) && Spells(a, da) && Spells(b, db)
    ensures Number(da) < 0x1_0000_0000 && Number(db) < 0x1_0000_0000
    ensures LoadLine(s, blanks + (a + " " + b + "\n"))
            == if s.isincode then Some(s.(curcode := s.curcode.(code := s.curcode.code + [Number(da), Number(db)])))
               else None
  {
    hide ScanHex, Span, StartOf, HexValue, Spells, Number, Blanks, StartsLike;
    var line := a + " " + b + "\n";
    LineOfNumbers(a, da, b, db);
    Indented(blanks, line);
    ScansNumber(a, da, false, " " + b + "\n");
    ScansNumber(b, db, true, "\n");
    assert line == "" + a + (" " + b + "\n");
  }

  lemma LineOfNumbers(a: string, da: seq<nat>, b: string, db: seq<nat>)
    requires Spells(a, da) && Spells(b, db)
    ensures var line := a + " " + b + "\n";
            && NoNul(line) && line[0] !in {' ', '\t', '#', '\r', '\n'}
            && !StartsLike(line, "CAT") && !StartsLike(line, "CODE")
            && forall i :: 0 <= i < |line| - 1 ==> line[i] != '\n'
  {
    var line := a + " " + b + "\n";
    forall i | 0 <= i < |line|
      ensures line[i] != '\0' && (i < |line| - 1 ==> line[i] != '\n')
    {
      if i < 8 {
        DigitIs(a[i], da[i]);
      } else if 8 < i < 17 {
        DigitIs(b[i - 9], db[i - 9]);
      }
    }
    DigitIs(a[0], da[0]);
    DigitIs(a[1], da[1]);
    DigitIs(a[2], da[2]);
    assert Upper(line[1]) != 'O' && Upper(line[2]) != 'T';
  }

  /** A comment, indented or not, and a line with nothing but blanks leave everything as it is. */
  lemma SkipsComments(s: Loading, blanks: string, comment: string)
    requires Blanks(blanks) && NoNul(comment)
    ensures LoadLine(s, blanks + ("#" + comment + "\n")) == Some(s)
    ensures LoadLine(s, blanks + "\n") == Some(s) && LoadLine(s, blanks + "\r\n") == Some(s)
  {
    Indented(blanks, "#" + comment + "\n");
    Indented(blanks, "\n");
    Indented(blanks, "\r\n");
  }

  /** A blank line at the very end of a file needs no newline. */
  lemma SkipsLastBlanks(s: Loading, blanks: string)
    requires Blanks(blanks)
    ensures LoadLine(s, blanks) == Some(s)
  {
    CStringWhole(blanks);
    SpanIs(blanks, IsBlank, |blanks|, |blanks|);
  }

  /** The key words count in capitals only; in any other spelling the line is malformed. */
  lemma KeyWordsInCapitals(s: Loading, start: string)
    requires start != ""
    ensures StartsLike(start, "CAT") && start[..3] != "CAT" ==> LoadStart(s, start) == None
    ensures StartsLike(start, "CODE") && start[..4] != "CODE" ==> LoadStart(s, start) == None
  {
    hide ScanName, ScanInt, ScanHex;
    if StartsLike(start, "CODE") {
      assert Upper(start[2]) == "CODE"[2] == 'D' && "CAT"[2] == 'T';
      assert !StartsLike(start, "CAT");
    }
  }

  /** A CODE line outside every category is an error. */
  lemma CodeNeedsCategory(s: Loading, code: ARCode)
    requires ValidName(code.name) && !s.isincat
    ensures LoadLine(s, CodeHeader(code)) == None
  {
    hide ScanName, ScanInt, ScanHex, WithCode, ValidName, NoNul, StartOf, CodeHeader;
    var line := CodeHeader(code);
    CodeHeaderIsLine(code);
    StartIsLine(line);
    var word := line[..4];
    assert line[0] == word[0] && line[1] == word[1] && line[2] == word[2] && line[3] == word[3];
    assert StartsLike(line, "CODE") && Upper(line[2]) != "CAT"[2];
  }

  /** A line longer than the buffer is read in pieces of 1023 characters. */
  lemma LongLineSplits(s: Loading, file: string)
    requires |file| >= 1023 && forall i :: 0 <= i < 1023 ==> file[i] != '\n'
    ensures LoadFrom(s, file)
            == match LoadLine(s, file[..1023]) case None => None case Some(t) => LoadFrom(t, file[1023..])
  {
    hide LoadLine;
    SpanIs(file, c => c != '\n', 1023, 1023);
  }

  // ---------------------------------------------------------------- a file

  lemma NumbersAreLine(blanks: string, a: string, da: seq<nat>, b: string, db: seq<nat>)
    requires Blanks(blanks) && |blanks| <= 100 && Spells(a, da) && Spells(b, db)
    ensures IsLine(blanks + (a + " " + b + "\n"))
  {
    LineOfNumbers(a, da, b, db);
  }

  /** A file of a comment, a category, a code and one line of digits of either case. */
  lemma HandWrittenFile(comment: string, cat: string, name: string, enabled: bool, blanks: string,
                        a: string, da: seq<nat>, b: string, db: seq<nat>)
    requires NoNul(comment) && |comment| <= 1000 && (forall i :: 0 <= i < |comment| ==> comment[i] != '\n')
    requires ValidName(cat) && ValidName(name)
    requires Blanks(blanks) && |blanks| <= 100 && Spells(a, da) && Spells(b, db)
    ensures Number(da) < 0x1_0000_0000 && Number(db) < 0x1_0000_0000
    ensures LoadText(("#" + comment + "\n")
                     + (("CAT " + cat + "\n")
                        + (("CODE " + (if enabled then "1" else "0") + " " + name + "\n")
                           + (blanks + (a + " " + b + "\n")))))
            == Some([ARCodeCat(cat, [ARCode(name, enabled, [Number(da), Number(db)])])])
  {
    hide LoadLine, LoadFrom, IsLine, ValidName, Spells, Number, Blanks, NoNul;
    var code := ARCode(name, enabled, []);
    var (l1, l2) := ("#" + comment + "\n", CatHeader(cat));
    var (l3, l4) := (CodeHeader(code), blanks + (a + " " + b + "\n"));
    assert IsLine(l1) by { CommentIsLine(comment); }
    assert CString(name) == name by { CStringName(name); }
    assert "" + l1 == l1;
    assert Blanks("") by { NoBlanks(); }
    SkipsComments(NOTHING_LOADED, "", comment);
    Feed(NOTHING_LOADED, l1, l2 + (l3 + l4));
    LoadCatLine(NOTHING_LOADED, cat);
    Feed(NOTHING_LOADED, l2, l3 + l4);
    var s := Loading([], true, ARCodeCat(cat, []), false, NOTHING_LOADED.curcode);
    LoadCodeLine(s, code);
    Feed(s, l3, l4);
    var t := s.(isincode := true, curcode := code);
    NumbersAreLine(blanks, a, da, b, db);
    LoadsNumbers(t, blanks, a, da, b, db);
    assert l4 + "" == l4;
    Feed(t, l4, "");
    EightLong(a, da);
    EightLong(b, db);
    var u := t.(curcode := ARCode(name, enabled, [Number(da), Number(db)]));
    assert t.curcode.code + [Number(da), Number(db)] == [Number(da), Number(db)];
    NothingLeft(u);
    assert u.curcat.codes + [u.curcode] == [u.curcode] && u.cats + [WithCode(u)] == [WithCode(u)];
    assert WithCat(u) == [ARCodeCat(cat, [ARCode(name, enabled, [Number(da), Number(db)])])];
    assert l2 == "CAT " + cat + "\n" && l3 == "CODE " + (if enabled then "1" else "0") + " " + name + "\n";
  }

  lemma NoBlanks()
    ensures Blanks("")
  {
  }

  lemma CommentIsLine(comment: string)
    requires |comment| <= 1000 && (forall i :: 0 <= i < |comment| ==> comment[i] != '\n')
    ensures IsLine("#" + comment + "\n")
  {
  }
}
