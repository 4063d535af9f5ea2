/** Loading undoes saving, for exactly the code lists whose names can be written. */
module ARCodeTheorems {
  import opened Basics
  import opened ARCodeText

  // ---------------------------------------------------------------- what loading can produce

  predicate NoNul(s: string) { forall i :: 0 <= i < |s| ==> s[i] != '\0' }

  /** A name that a CAT or CODE line can hold. */
  predicate ValidName(name: string) {
    && 1 <= |name| <= 127 && !IsSpace(name[0]) && NoNul(name)
    && forall i :: 0 <= i < |name| ==> name[i] != '\r' && name[i] != '\n'
  }

  predicate ValidCode(code: ARCode) { ValidName(code.name) && |code.code| % 2 == 0 }

  predicate ValidCat(cat: ARCodeCat) { ValidName(cat.name) && forall code <- cat.codes :: ValidCode(code) }

  predicate Valid(cats: seq<ARCodeCat>) { forall cat <- cats :: ValidCat(cat) }

  predicate Loaded(s: Loading) {
    && Valid(s.cats)
    && (s.isincat ==> ValidCat(s.curcat))
    && (s.isincode ==> s.isincat && ValidCode(s.curcode))
  }

  lemma ScannedName(s: string)
    requires NoNul(s)
    ensures ScanName(s).Some? ==> ValidName(ScanName(s).value)
  {
  }

  lemma StartHasNoNul(line: string)
    ensures NoNul(StartOf(line))
  {
    var text := CString(line);
    assert NoNul(text);
  }

  lemma IntRest(s: string)
    requires NoNul(s)
    ensures ScanInt(s).Some? ==> NoNul(ScanInt(s).value.1)
  {
  }

  lemma LineKeepsLoaded(s: Loading, line: string)
    requires Loaded(s) && LoadLine(s, line).Some?
    ensures Loaded(LoadLine(s, line).value)
  {
    hide ScanName, ScanInt, ScanHex, StartsLike, ValidName, StartOf;
    StartHasNoNul(line);
    var start := StartOf(line);
    if |start| >= 3 {
      ScannedName(start[3..]);
    }
    if |start| >= 4 && ScanInt(start[4..]).Some? {
      IntRest(start[4..]);
      ScannedName(ScanInt(start[4..]).value.1);
    }
  }

  /** Whatever the file holds, what is loaded from it has valid names and codes of even length. */
  lemma {:induction false} LoadsValid(s: Loading, file: string)
    requires Loaded(s) && LoadFrom(s, file).Some?
    ensures Valid(LoadFrom(s, file).value)
    decreases |file|
  {
    hide LoadLine, ValidName;
    if file != "" {
      var n := LineLength(file);
      LineKeepsLoaded(s, file[..n]);
      LoadsValid(LoadLine(s, file[..n]).value, file[n..]);
    }
  }

  // ---------------------------------------------------------------- one line

  /** A line that `fgets` reads in one piece. */
  predicate IsLine(line: string) {
    1 <= |line| <= LINE_BUFFER && line[|line| - 1] == '\n' && forall i :: 0 <= i < |line| - 1 ==> line[i] != '\n'
  }

  lemma {:induction false} SpanIs(s: string, p: char -> bool, limit: nat, n: nat)
    requires n <= |s| && n <= limit && (forall i :: 0 <= i < n ==> p(s[i])) && (n < |s| && n < limit ==> !p(s[n]))
    ensures Span(s, p, limit) == n
  {
    if n > 0 {
      SpanIs(s[1..], p, limit - 1, n - 1);
    }
  }

  /** Loading a file that starts with a line. */
  lemma Feed(s: Loading, line: string, rest: string)
    requires IsLine(line)
    ensures LoadFrom(s, line + rest)
            == match LoadLine(s, line) case None => None case Some(t) => LoadFrom(t, rest)
  {
    hide LoadLine;
    var file := line + rest;
    assert forall i :: 0 <= i < |line| ==> file[i] == line[i];
    SpanIs(file, c => c != '\n', LINE_BUFFER, |line| - 1);
    assert file[..|line|] == line && file[|line|..] == rest;
  }

  lemma CStringWhole(s: string)
    requires NoNul(s)
    ensures CString(s) == s
  {
    SpanIs(s, c => c != '\0', |s|, |s|);
  }

  /** A line without NUL that starts with something other than a blank is scanned as it stands. */
  lemma StartIsLine(line: string)
    requires line != "" && !IsBlank(line[0]) && NoNul(line)
    ensures StartOf(line) == line
  {
    CStringWhole(line);
  }

  lemma EmptyLine(s: Loading)
    ensures LoadLine(s, "\n") == Some(s)
  {
    StartIsLine("\n");
  }

  lemma ScanNameOf(name: string)
    requires ValidName(name)
    ensures ScanName(" " + name + "\n") == Some(name)
  {
    var s := " " + name + "\n";
    SpanIs(s, IsSpace, |s|, 1);
    var t := s[1..];
    assert t == name + "\n";
    SpanIs(t, InName, 127, |name|);
  }

  function CatHeader(name: string): string { "CAT " + name + "\n" }

  lemma CatHeaderIsLine(name: string)
    requires ValidName(name)
    ensures IsLine(CatHeader(name)) && NoNul(CatHeader(name))
    ensures CatHeader(name)[0] == 'C' && CatHeader(name)[..3] == "CAT" && CatHeader(name)[3..] == " " + name + "\n"
  {
  }

  lemma LoadCatLine(s: Loading, name: string)
    requires ValidName(name)
    ensures IsLine(CatHeader(name))
    ensures LoadLine(s, CatHeader(name)) == Some(Loading(WithCat(s), true, ARCodeCat(name, []), false, s.curcode))
  {
    hide ScanName, ScanInt, ScanHex, WithCat, IsLine, ValidName, NoNul, StartOf, CatHeader;
    var line := CatHeader(name);
    CatHeaderIsLine(name);
    StartIsLine(line);
    ScanNameOf(name);
    assert line[0] == line[..3][0] && line[1] == line[..3][1] && line[2] == line[..3][2];
    assert StartsLike(line, "CAT");
  }

  lemma ScanFlag(enabled: bool, rest: string)
    requires rest != "" && !IsDigit(rest[0])
    ensures ScanInt(" " + (if enabled then "1" else "0") + rest) == Some((enabled, rest))
  {
    var s := " " + (if enabled then "1" else "0") + rest;
    SpanIs(s, IsSpace, |s|, 1);
    var t := s[1..];
    assert SkipSpace(s) == t;
    assert t[0] == if enabled then '1' else '0';
    SpanIs(t, IsDigit, |t|, 1);
    assert t[1..] == rest;
    assert t[..1] == if enabled then "1" else "0";
    assert Nonzero("1") by { assert '1' in "1"; }
  }

  lemma CodeHeaderIsLine(code: ARCode)
    requires ValidName(code.name)
    ensures IsLine(CodeHeader(code)) && NoNul(CodeHeader(code)) && CodeHeader(code)[0] == 'C'
    ensures CodeHeader(code)[..4] == "CODE"
    ensures CodeHeader(code)[4..] == " " + (if code.enabled then "1" else "0") + (" " + code.name + "\n")
  {
    CStringWhole(code.name);
  }

  lemma LoadCodeLine(s: Loading, code: ARCode)
    requires ValidName(code.name) && s.isincat
    ensures IsLine(CodeHeader(code))
    ensures LoadLine(s, CodeHeader(code))
            == Some(s.(curcat := WithCode(s), isincode := true, curcode := ARCode(code.name, code.enabled, [])))
  {
    hide ScanName, ScanInt, ScanHex, WithCode, IsLine, ValidName, NoNul, StartOf, CodeHeader;
    var line := CodeHeader(code);
    CodeHeaderIsLine(code);
    StartIsLine(line);
    var rest := " " + code.name + "\n";
    ScanFlag(code.enabled, rest);
    ScanNameOf(code.name);
    var word := line[..4];
    assert line[0] == word[0] && line[1] == word[1] && line[2] == word[2] && line[3] == word[3];
    assert StartsLike(line, "CODE") && Upper(line[2]) != "CAT"[2];
  }

  // ---------------------------------------------------------------- data lines

  lemma HexCharIs(d: int)
    requires 0 <= d < 16
    ensures IsHex(HexChar(d)) && HexDigit(HexChar(d)) == d && !IsSpace(HexChar(d))
    ensures HexChar(d) !in {'-', '+', 'x', 'X', '#', '\r', '\n', '\0', ' ', '\t', 'O', 'T'}
  {
  }

  function Power16(n: nat): nat { if n == 0 then 1 else 16 * Power16(n - 1) }

  predicate AllHex(s: string) {
    forall i :: 0 <= i < |s| ==> IsHex(s[i]) && exists d :: 0 <= d < 16 && s[i] == HexChar(d)
  }

  lemma {:induction false} HexTextValue(x: nat, n: nat)
    requires x < Power16(n)
    ensures AllHex(HexText(x, n)) && HexValue(HexText(x, n)) == x
  {
    if n > 0 {
      HexTextValue(x / 16, n - 1);
      HexCharIs(x % 16);
      var s := HexText(x, n);
      assert s[..n - 1] == HexText(x / 16, n - 1);
    }
  }

  lemma DigitsScan(digits: string, rest: string)
    requires |digits| == 8 && AllHex(digits) && rest != ""
    ensures var t := digits + rest;
            && !IsSpace(t[0]) && t[0] !in {'-', '+'} && t[1] !in {'x', 'X'}
            && Span(t, IsHex, 8) == 8 && t[..8] == digits && t[8..] == rest
  {
    var t := digits + rest;
    assert forall i :: 0 <= i < 8 ==> t[i] == digits[i] && IsHex(t[i]);
    var d :| 0 <= d < 16 && digits[0] == HexChar(d);
    var e :| 0 <= e < 16 && digits[1] == HexChar(e);
    HexCharIs(d);
    HexCharIs(e);
    SpanIs(t, IsHex, 8, 8);
  }

  lemma SkipOneSpace(blank: bool, t: string)
    requires t != "" && !IsSpace(t[0])
    ensures SkipSpace((if blank then " " else "") + t) == t
  {
    var s := (if blank then " " else "") + t;
    SpanIs(s, IsSpace, |s|, if blank then 1 else 0);
  }

  /** Eight digits followed by something else are scanned back, with or without a blank before them. */
  lemma ScanHexOf(x: u32, blank: bool, rest: string)
    requires rest != ""
    ensures ScanHex((if blank then " " else "") + HexText(x, 8) + rest) == Some((x, rest))
  {
    hide HexText, HexValue, SkipSpace, Span, IsSpace, IsHex, AllHex;
    assert Power16(8) == 0x1_0000_0000;
    HexTextValue(x, 8);
    var t := HexText(x, 8) + rest;
    DigitsScan(HexText(x, 8), rest);
    SkipOneSpace(blank, t);
    assert (if blank then " " else "") + HexText(x, 8) + rest == (if blank then " " else "") + t;
    assert t[0..] == t;
  }

  function DataHeader(a: u32, b: u32): string { HexText(a, 8) + " " + HexText(b, 8) + "\n" }

  /** A data line is never taken for a CAT or a CODE line. */
  lemma DataHeaderIsLine(a: u32, b: u32)
    ensures IsLine(DataHeader(a, b)) && NoNul(DataHeader(a, b)) && StartOf(DataHeader(a, b)) == DataHeader(a, b)
    ensures DataHeader(a, b)[0] !in {'#', '\r', '\n'}
    ensures !StartsLike(DataHeader(a, b), "CAT") && !StartsLike(DataHeader(a, b), "CODE")
  {
    hide HexText, HexValue, StartOf;
    assert Power16(8) == 0x1_0000_0000;
    HexTextValue(a, 8);
    HexTextValue(b, 8);
    var line := DataHeader(a, b);
    forall i | 0 <= i < |line| - 1
      ensures line[i] !in {'\n', '\0', '#', '\r', '\t', 'O', 'T'} && (line[i] == ' ' ==> i == 8)
    {
      if i < 8 {
        assert line[i] == HexText(a, 8)[i];
        var d :| 0 <= d < 16 && HexText(a, 8)[i] == HexChar(d);
        HexCharIs(d);
      } else if i > 8 {
        assert line[i] == HexText(b, 8)[i - 9];
        var d :| 0 <= d < 16 && HexText(b, 8)[i - 9] == HexChar(d);
        HexCharIs(d);
      }
    }
    StartIsLine(line);
    CapitalsOnly(line, a);
  }

  lemma CapitalsOnly(line: string, a: u32)
    requires |line| >= 8 && line[..8] == HexText(a, 8)
    ensures Upper(line[2]) != 'T' && Upper(line[1]) != 'O'
  {
    hide HexText, HexValue;
    assert Power16(8) == 0x1_0000_0000;
    HexTextValue(a, 8);
    assert line[1] == HexText(a, 8)[1] && line[2] == HexText(a, 8)[2];
    var d :| 0 <= d < 16 && HexText(a, 8)[1] == HexChar(d);
    var e :| 0 <= e < 16 && HexText(a, 8)[2] == HexChar(e);
  }

  lemma LoadDataLine(s: Loading, a: u32, b: u32)
    requires s.isincode
    ensures IsLine(DataHeader(a, b))
    ensures LoadLine(s, DataHeader(a, b)) == Some(s.(curcode := s.curcode.(code := s.curcode.code + [a, b])))
  {
    hide ScanHex, IsLine, NoNul, StartOf, HexText, StartsLike;
    DataHeaderIsLine(a, b);
    var line := DataHeader(a, b);
    var rest := " " + HexText(b, 8) + "\n";
    assert line == "" + HexText(a, 8) + rest;
    ScanHexOf(a, false, rest);
    ScanHexOf(b, true, "\n");
  }

  // ---------------------------------------------------------------- whole files

  lemma FeedTwo(s: Loading, line: string, middle: string, rest: string)
    requires IsLine(line) && LoadLine(s, line).Some?
    ensures LoadFrom(s, line + middle + rest) == LoadFrom(LoadLine(s, line).value, middle + rest)
  {
    hide LoadLine, LoadFrom, IsLine;
    assert line + middle + rest == line + (middle + rest);
    Feed(s, line, middle + rest);
  }

  lemma {:induction false} LoadData(s: Loading, code: seq<u32>, rest: string)
    requires s.isincode && |code| % 2 == 0
    ensures LoadFrom(s, DataText(code) + rest)
            == LoadFrom(s.(curcode := s.curcode.(code := s.curcode.code + code)), rest)
    decreases |code|
  {
    hide LoadFrom, LoadLine, DataHeader, IsLine;
    if code == [] {
      assert DataText(code) + rest == rest;
      assert s.curcode.code + code == s.curcode.code;
    } else {
      var (a, b) := (code[0], code[1]);
      LoadDataLine(s, a, b);
      assert DataText(code) == DataHeader(a, b) + DataText(code[2..]) by { DataTextSplits(code); }
      FeedTwo(s, DataHeader(a, b), DataText(code[2..]), rest);
      LoadData(LoadLine(s, DataHeader(a, b)).value, code[2..], rest);
      assert s.curcode.code + [a, b] + code[2..] == s.curcode.code + code;
    }
  }

  lemma DataTextSplits(code: seq<u32>)
    requires |code| % 2 == 0 && code != []
    ensures DataText(code) == DataHeader(code[0], code[1]) + DataText(code[2..])
  {
  }

  lemma LoadEmptyLine(s: Loading, rest: string)
    ensures LoadFrom(s, "\n" + rest) == LoadFrom(s, rest)
  {
    hide LoadFrom, LoadLine;
    EmptyLine(s);
    Feed(s, "\n", rest);
  }

  /** The state after a whole code: it is the one under way, and its predecessor is filed. */
  function AfterCode(s: Loading, code: ARCode): Loading { s.(curcat := WithCode(s), isincode := true, curcode := code) }

  lemma LoadCode(s: Loading, code: ARCode, rest: string)
    requires s.isincat && ValidCode(code)
    ensures LoadFrom(s, CodeHeader(code) + DataText(code.code) + "\n" + rest) == LoadFrom(AfterCode(s, code), rest)
  {
    hide LoadFrom, LoadLine, CodeHeader, DataText, IsLine, ValidName;
    LoadCodeLine(s, code);
    var t := LoadLine(s, CodeHeader(code)).value;
    var tail := "\n" + rest;
    assert CodeHeader(code) + DataText(code.code) + "\n" + rest == CodeHeader(code) + DataText(code.code) + tail;
    FeedTwo(s, CodeHeader(code), DataText(code.code), tail);
    LoadData(t, code.code, tail);
    assert [] + code.code == code.code;
    LoadEmptyLine(t.(curcode := code), rest);
  }

  /** The state after some codes of a category: all but the last are filed. */
  function AfterCodes(s: Loading, codes: seq<ARCode>): Loading
    decreases |codes|
  {
    if codes == [] then s else AfterCodes(AfterCode(s, codes[0]), codes[1..])
  }

  lemma {:induction false} LoadCodes(s: Loading, codes: seq<ARCode>, rest: string)
    requires s.isincat && (forall code <- codes :: ValidCode(code)) && forall code <- codes :: |code.code| % 2 == 0
    ensures LoadFrom(s, CodesText(codes) + rest) == LoadFrom(AfterCodes(s, codes), rest)
    decreases |codes|
  {
    hide LoadFrom, CodeHeader, DataText, ValidCode;
    if codes == [] {
      assert CodesText(codes) + rest == rest;
    } else {
      var first := CodeHeader(codes[0]) + DataText(codes[0].code) + "\n";
      assert CodesText(codes) == first + CodesText(codes[1..]) by { CodesTextSplits(codes); }
      assert CodesText(codes) + rest == first + (CodesText(codes[1..]) + rest);
      LoadCode(s, codes[0], CodesText(codes[1..]) + rest);
      LoadCodes(AfterCode(s, codes[0]), codes[1..], rest);
    }
  }

  lemma CodesTextSplits(codes: seq<ARCode>)
    requires codes != [] && forall code <- codes :: |code.code| % 2 == 0
    ensures CodesText(codes) == CodeHeader(codes[0]) + DataText(codes[0].code) + "\n" + CodesText(codes[1..])
  {
  }

  /** Filing the code under way after some codes gives the category with all of them. */
  lemma {:induction false} AfterCodesFiled(s: Loading, codes: seq<ARCode>)
    ensures WithCode(AfterCodes(s, codes)) == WithCode(s).(codes := WithCode(s).codes + codes)
    ensures AfterCodes(s, codes).cats == s.cats && AfterCodes(s, codes).isincat == s.isincat
    decreases |codes|
  {
    if codes == [] {
      assert WithCode(s).codes + codes == WithCode(s).codes;
    } else {
      AfterCodesFiled(AfterCode(s, codes[0]), codes[1..]);
      assert WithCode(s).codes + [codes[0]] + codes[1..] == WithCode(s).codes + codes;
    }
  }

  lemma LoadCat(s: Loading, cat: ARCodeCat, rest: string) returns (t: Loading)
    requires ValidCat(cat) && forall code <- cat.codes :: |code.code| % 2 == 0
    ensures LoadFrom(s, CatText(cat) + rest) == LoadFrom(t, rest)
    ensures t.isincat && WithCat(t) == WithCat(s) + [cat]
  {
    hide LoadFrom, LoadLine, IsLine, CodesText, WithCode, ValidName, ValidCode;
    LoadCatLine(s, cat.name);
    var u := LoadLine(s, CatHeader(cat.name)).value;
    CStringName(cat.name);
    var tail := CodesText(cat.codes) + rest;
    assert CatText(cat) + rest == CatHeader(cat.name) + "\n" + tail;
    FeedTwo(s, CatHeader(cat.name), "\n", tail);
    LoadEmptyLine(u, tail);
    LoadCodes(u, cat.codes, rest);
    t := AfterCodes(u, cat.codes);
    AfterCodesFiled(u, cat.codes);
    NotInCode(u);
    assert [] + cat.codes == cat.codes;
  }

  lemma CStringName(name: string)
    requires ValidName(name)
    ensures CString(name) == name
  {
    CStringWhole(name);
  }

  lemma NotInCode(s: Loading)
    ensures !s.isincode ==> WithCode(s) == s.curcat
  {
  }

  lemma Associative(a: string, b: string, c: string)
    ensures a + b + c == a + (b + c)
  {
  }

  lemma EvenTail(cats: seq<ARCodeCat>)
    requires Even(cats) && cats != []
    ensures Even(cats[1..]) && forall code <- cats[0].codes :: |code.code| % 2 == 0
  {
    assert cats[0] in cats;
  }

  lemma CatsTextSplits(cats: seq<ARCodeCat>, first: bool)
    requires Even(cats) && cats != []
    ensures Even(cats[1..]) && forall code <- cats[0].codes :: |code.code| % 2 == 0
    ensures CatsText(cats, first) == (if first then "" else "\n") + (CatText(cats[0]) + CatsText(cats[1..], false))
  {
    EvenTail(cats);
    hide CatText, Even;
    var prefix := if first then "" else "\n";
    Associative(prefix, CatText(cats[0]), CatsText(cats[1..], false));
  }

  lemma NothingLeft(s: Loading)
    ensures LoadFrom(s, "") == Some(WithCat(s))
  {
  }

  lemma {:induction false} LoadCats(s: Loading, cats: seq<ARCodeCat>, first: bool)
    requires Valid(cats) && Even(cats)
    ensures LoadFrom(s, CatsText(cats, first)) == Some(WithCat(s) + cats)
    decreases |cats|
  {
    hide CatText, ValidCat, WithCat, LoadFrom, Even;
    if cats == [] {
      NothingLeft(s);
      assert WithCat(s) + cats == WithCat(s);
    } else {
      CatsTextSplits(cats, first);
      var rest := CatsText(cats[1..], false);
      var text := CatText(cats[0]) + rest;
      var t := LoadCat(s, cats[0], rest);
      LoadCats(t, cats[1..], false);
      assert WithCat(s) + [cats[0]] + cats[1..] == WithCat(s) + cats;
      LoadEmptyLine(s, text);
      assert first ==> "" + text == text;
    }
  }

  /**
   * Loading what was saved gives the same categories, codes and words back if
   * and only if every name is 1 to 127 bytes long, starts with no white space
   * and contains no NUL and no line end.
   */
  lemma SaveThenLoad(cats: seq<ARCodeCat>)
    requires Even(cats)
    ensures LoadText(SaveText(cats)) == Some(cats) <==> Valid(cats)
  {
    hide LoadFrom, CatsText, ValidCat;
    if Valid(cats) {
      LoadCats(NOTHING_LOADED, cats, true);
      assert [] + cats == cats;
    }
    if LoadText(SaveText(cats)) == Some(cats) {
      LoadsValid(NOTHING_LOADED, SaveText(cats));
    }
  }
}
