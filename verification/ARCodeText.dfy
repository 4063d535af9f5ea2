/**
 * The text form of cheat codes: the scanner that `Load` is made of and the text
 * that `Save` writes.  A character stands for one byte.
 */
module ARCodeText {
  import opened Basics

  datatype ARCode = ARCode(name: string, enabled: bool, code: seq<u32>)

  datatype ARCodeCat = ARCodeCat(name: string, codes: seq<ARCode>)

  // ---------------------------------------------------------------- C strings and scanning

  predicate IsSpace(c: char) { c == ' ' || '\t' <= c <= '\r' }

  predicate InName(c: char) { c != '\r' && c != '\n' }

  /** How many characters at the start of s satisfy p, at most `limit`. */
  function Span(s: string, p: char -> bool, limit: nat): (n: nat)
    ensures n <= |s| && n <= limit
    ensures forall i :: 0 <= i < n ==> p(s[i])
    ensures n < |s| && n < limit ==> !p(s[n])
  {
    if limit == 0 || s == "" || !p(s[0]) then 0 else 1 + Span(s[1..], p, limit - 1)
  }

  /** The characters before the first NUL. */
  function CString(s: string): string { s[..Span(s, c => c != '\0', |s|)] }

  function SkipSpace(s: string): string { s[Span(s, IsSpace, |s|)..] }

  function Upper(c: char): char { if 'a' <= c <= 'z' then c - 'a' + 'A' else c }

  /** `strncasecmp` with a key word in capitals. */
  predicate StartsLike(s: string, word: string) {
    |s| >= |word| && forall i :: 0 <= i < |word| ==> Upper(s[i]) == word[i]
  }

  /** `%127[^\r\n]` after a blank in the format. */
  function ScanName(s: string): Option<string> {
    var t := SkipSpace(s);
    var n := Span(t, InName, 127);
    if n == 0 then None else Some(t[..n])
  }

  predicate IsDigit(c: char) { '0' <= c <= '9' }

  predicate Nonzero(digits: string) { exists c <- digits :: c != '0' }

  /** `%d`: whether the number is nonzero, and what follows it. */
  function ScanInt(s: string): Option<(bool, string)> {
    var t := SkipSpace(s);
    var u := if t != "" && (t[0] == '-' || t[0] == '+') then t[1..] else t;
    var n := Span(u, IsDigit, |u|);
    if n == 0 then None else Some((Nonzero(u[..n]), u[n..]))
  }

  predicate IsHex(c: char) { IsDigit(c) || 'A' <= c <= 'F' || 'a' <= c <= 'f' }

  function HexDigit(c: char): (d: int)
    requires IsHex(c)
    ensures 0 <= d < 16
  {
    if IsDigit(c) then c as int - '0' as int
    else if c <= 'F' then c as int - 'A' as int + 10
    else c as int - 'a' as int + 10
  }

  function HexValue(s: string): nat
    requires forall i :: 0 <= i < |s| ==> IsHex(s[i])
  {
    if s == "" then 0 else 16 * HexValue(s[..|s| - 1]) + HexDigit(s[|s| - 1])
  }

  function Signed(negative: bool, v: int): u32 { (if negative then -v else v) % 0x1_0000_0000 }

  /** `%08X`: up to eight characters, among them a sign and a 0x prefix if they are there. */
  function ScanHex(s: string): Option<(u32, string)> {
    var t := SkipSpace(s);
    var sign := if t != "" && (t[0] == '-' || t[0] == '+') then 1 else 0;
    var u := t[sign..];
    var prefix := if |u| > 1 && u[0] == '0' && (u[1] == 'x' || u[1] == 'X') then 2 else 0;
    var n := Span(u[prefix..], IsHex, 8 - sign - prefix);
    if n == 0 then None
    else
      Some((Signed(sign == 1 && t[0] == '-', HexValue(u[prefix..][..n])), u[prefix..][n..]))
  }

  // ---------------------------------------------------------------- loading

  const LINE_BUFFER := 1023

  /** `fgets`: up to and including a newline, at most what fits the buffer. */
  function LineLength(file: string): (n: nat)
    requires file != ""
    ensures 1 <= n <= |file| && n <= LINE_BUFFER
  {
    var n := Span(file, c => c != '\n', LINE_BUFFER);
    if n < |file| && n < LINE_BUFFER then n + 1 else n
  }

  datatype Loading = Loading(
    cats: seq<ARCodeCat>, isincat: bool, curcat: ARCodeCat, isincode: bool, curcode: ARCode)

  const NOTHING_LOADED := Loading([], false, ARCodeCat("", []), false, ARCode("", false, []))

  /** The code under way goes into the category under way. */
  function WithCode(s: Loading): ARCodeCat {
    if s.isincode then s.curcat.(codes := s.curcat.codes + [s.curcode]) else s.curcat
  }

  function WithCat(s: Loading): seq<ARCodeCat> {
    if s.isincat then s.cats + [WithCode(s)] else s.cats
  }

  function CatLine(s: Loading, start: string): Option<Loading> {
    if |start| < 3 || start[..3] != "CAT" then None
    else
      match ScanName(start[3..])
      case None => None
      case Some(name) => Some(Loading(WithCat(s), true, ARCodeCat(name, []), false, s.curcode))
  }

  function CodeLine(s: Loading, start: string): Option<Loading> {
    if |start| < 4 || start[..4] != "CODE" then None
    else
      match ScanInt(start[4..])
      case None => None
      case Some((enable, rest)) =>
        match ScanName(rest)
        case None => None
        case Some(name) =>
          if !s.isincat then None
          else Some(s.(curcat := WithCode(s), isincode := true, curcode := ARCode(name, enable, [])))
  }

  function DataLine(s: Loading, start: string): Option<Loading> {
    match ScanHex(start)
    case None => None
    case Some((c0, rest)) =>
      match ScanHex(rest)
      case None => None
      case Some((c1, _)) =>
        if !s.isincode then None
        else Some(s.(curcode := s.curcode.(code := s.curcode.code + [c0, c1])))
  }

  predicate IsBlank(c: char) { c == ' ' || c == '\t' }

  /** A line without its leading blanks; None is a malformed one. */
  function LoadStart(s: Loading, start: string): Option<Loading> {
    if start == "" || start[0] == '#' || start[0] == '\r' || start[0] == '\n' then Some(s)
    else if StartsLike(start, "CAT") then CatLine(s, start)
    else if StartsLike(start, "CODE") then CodeLine(s, start)
    else DataLine(s, start)
  }

  function StartOf(line: string): string {
    var text := CString(line);
    text[Span(text, IsBlank, |text|)..]
  }

  function LoadLine(s: Loading, line: string): Option<Loading> { LoadStart(s, StartOf(line)) }

  function LoadFrom(s: Loading, file: string): Option<seq<ARCodeCat>>
    decreases |file|
  {
    if file == "" then Some(WithCat(s))
    else
      var n := LineLength(file);
      match LoadLine(s, file[..n])
      case None => None
      case Some(t) => LoadFrom(t, file[n..])
  }

  function LoadText(file: string): Option<seq<ARCodeCat>> { LoadFrom(NOTHING_LOADED, file) }

  // ---------------------------------------------------------------- saving

  function HexChar(d: int): char
    requires 0 <= d < 16
  {
    if d < 10 then '0' + d as char else 'A' + (d - 10) as char
  }

  /** n hexadecimal digits of x. */
  function HexText(x: nat, n: nat): (s: string)
    ensures |s| == n
  {
    if n == 0 then "" else HexText(x / 16, n - 1) + [HexChar(x % 16)]
  }

  function DataText(code: seq<u32>): string
    requires |code| % 2 == 0
  {
    if code == [] then ""
    else HexText(code[0], 8) + " " + HexText(code[1], 8) + "\n" + DataText(code[2..])
  }

  function CodeHeader(code: ARCode): string {
    "CODE " + (if code.enabled then "1" else "0") + " " + CString(code.name) + "\n"
  }

  /** The source writes pairs of words, so it demands codes of even length. */
  predicate Even(cats: seq<ARCodeCat>) {
    forall cat <- cats, code <- cat.codes :: |code.code| % 2 == 0
  }

  function CodesText(codes: seq<ARCode>): string
    requires forall code <- codes :: |code.code| % 2 == 0
  {
    if codes == [] then "" else CodeHeader(codes[0]) + DataText(codes[0].code) + "\n" + CodesText(codes[1..])
  }

  function CatText(cat: ARCodeCat): string
    requires forall code <- cat.codes :: |code.code| % 2 == 0
  {
    "CAT " + CString(cat.name) + "\n" + "\n" + CodesText(cat.codes)
  }

  /** The categories from number i on, each but the very first after an empty line. */
  function CatsText(cats: seq<ARCodeCat>, first: bool): string
    requires Even(cats)
  {
    if cats == [] then ""
    else (if first then "" else "\n") + CatText(cats[0]) + CatsText(cats[1..], false)
  }

  function SaveText(cats: seq<ARCodeCat>): string
    requires Even(cats)
  {
    CatsText(cats, true)
  }
}
