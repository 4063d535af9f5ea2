/** The cheat file object: categories in memory, text on disk. */
module ARCodeFile {
  import opened Basics
  import opened ARCodeText

  /** The categories that are filed when loading stops, at the end or at a malformed line. */
  function Filed(s: Loading, file: string): seq<ARCodeCat>
    decreases |file|
  {
    if file == "" then s.cats
    else
      var n := LineLength(file);
      match LoadLine(s, file[..n])
      case None => s.cats
      case Some(t) => Filed(t, file[n..])
  }

  class ARCodeFile {
    var disk: Option<string>
    var categories: seq<ARCodeCat>
    var error: bool

    constructor (disk: Option<string>)
      ensures this.disk == disk
      ensures error <==> disk.Some? && LoadText(disk.value).None?
      ensures !error ==> categories == if disk.None? then [] else LoadText(disk.value).value
    {
      this.disk, categories, error := disk, [], false;
      new;
      var ok := Load();
      if !ok {
        error := true;
      }
    }

    method Load() returns (ok: bool)
      modifies this`categories
      ensures disk.None? ==> ok && categories == old(categories)
      ensures disk.Some? ==> ok == LoadText(disk.value).Some?
      ensures disk.Some? && ok ==> categories == LoadText(disk.value).value
      ensures disk.Some? && !ok ==> categories == Filed(NOTHING_LOADED, disk.value)
    {
      hide LoadLine, LineLength;
      if disk.None? {
        return true;
      }
      var file := disk.value;
      categories := [];
      var (isincat, curcat) := (false, ARCodeCat("", []));
      var (isincode, curcode) := (false, ARCode("", false, []));
      while file != ""
        invariant LoadFrom(Loading(categories, isincat, curcat, isincode, curcode), file) == LoadText(disk.value)
        invariant Filed(Loading(categories, isincat, curcat, isincode, curcode), file)
                  == Filed(NOTHING_LOADED, disk.value)
        decreases |file|
      {
        var n := LineLength(file);
        var line := file[..n];
        ghost var s := Loading(categories, isincat, curcat, isincode, curcode);
        var malformed: bool;
        malformed, isincat, curcat, isincode, curcode := ReadLine(line, isincat, curcat, isincode, curcode);
        if malformed {
          return false;
        }
        file := file[n..];
      }
      if isincode {
        curcat := curcat.(codes := curcat.codes + [curcode]);
      }
      if isincat {
        categories := categories + [curcat];
      }
      ok := true;
    }

    /** One turn of the loop of `Load`. */
    method ReadLine(line: string, isincat0: bool, curcat0: ARCodeCat, isincode0: bool, curcode0: ARCode)
      returns (malformed: bool, isincat: bool, curcat: ARCodeCat, isincode: bool, curcode: ARCode)
      modifies this`categories
      ensures var r := LoadLine(Loading(old(categories), isincat0, curcat0, isincode0, curcode0), line);
              malformed == r.None?
              && (malformed ==> categories == old(categories))
              && (!malformed ==> r.value == Loading(categories, isincat, curcat, isincode, curcode))
    {
      hide StartOf, ScanName, ScanInt, ScanHex, StartsLike;
      malformed, isincat, curcat, isincode, curcode := false, isincat0, curcat0, isincode0, curcode0;
      var start := StartOf(line);
      if start == "" || start[0] == '#' || start[0] == '\r' || start[0] == '\n' {
        return;
      }
      if StartsLike(start, "CAT") {
        var catname := if |start| >= 3 && start[..3] == "CAT" then ScanName(start[3..]) else None;
        if catname.None? {
          malformed := true;
          return;
        }
        if isincode {
          curcat := curcat.(codes := curcat.codes + [curcode]);
        }
        isincode := false;
        if isincat {
          categories := categories + [curcat];
        }
        isincat := true;
        curcat := ARCodeCat(catname.value, []);
      } else if StartsLike(start, "CODE") {
        var enable := if |start| >= 4 && start[..4] == "CODE" then ScanInt(start[4..]) else None;
        var codename := if enable.Some? then ScanName(enable.value.1) else None;
        if codename.None? || !isincat {
          malformed := true;
          return;
        }
        if isincode {
          curcat := curcat.(codes := curcat.codes + [curcode]);
        }
        isincode := true;
        curcode := ARCode(codename.value, enable.value.0, []);
      } else {
        var c0 := ScanHex(start);
        var c1 := if c0.Some? then ScanHex(c0.value.1) else None;
        if c1.None? || !isincode {
          malformed := true;
          return;
        }
        curcode := curcode.(code := curcode.code + [c0.value.0, c1.value.0]);
      }
    }

    /** The innermost loop of `Save`: pairs of words, one line each. */
    static method DataLines(code: seq<u32>) returns (text: string)
      requires |code| % 2 == 0
      ensures text == DataText(code)
    {
      hide HexText;
      text := "";
      var i := 0;
      assert code[0..] == code;
      while i < |code|
        invariant 0 <= i <= |code| && i % 2 == 0 && text + DataText(code[i..]) == DataText(code)
      {
        var line := HexText(code[i], 8) + " " + HexText(code[i + 1], 8) + "\n";
        assert code[i..][2..] == code[i + 2..];
        assert text + (line + DataText(code[i + 2..])) == text + line + DataText(code[i + 2..]);
        text := text + line;
        i := i + 2;
      }
    }

    static method CodeLines(codes: seq<ARCode>) returns (text: string)
      requires forall code <- codes :: |code.code| % 2 == 0
      ensures text == CodesText(codes)
    {
      hide CodeHeader, DataText;
      text := "";
      assert codes[0..] == codes;
      for j := 0 to |codes|
        invariant text + CodesText(codes[j..]) == CodesText(codes)
      {
        var data := DataLines(codes[j].code);
        var part := CodeHeader(codes[j]) + data + "\n";
        assert codes[j..][1..] == codes[j + 1..];
        assert text + (part + CodesText(codes[j + 1..])) == text + part + CodesText(codes[j + 1..]);
        text := text + part;
      }
    }

    method Save()
      requires Even(categories)
      modifies this`disk
      ensures disk == Some(SaveText(categories))
    {
      hide CodesText, CString;
      var text := "";
      assert categories[0..] == categories;
      for i := 0 to |categories|
        invariant text + CatsText(categories[i..], i == 0) == SaveText(categories)
      {
        var cat := categories[i];
        assert cat in categories;
        var codes := CodeLines(cat.codes);
        var part := (if i == 0 then "" else "\n") + ("CAT " + CString(cat.name) + "\n" + "\n" + codes);
        assert categories[i..][1..] == categories[i + 1..];
        assert CatsText(categories[i..], i == 0) == part + CatsText(categories[i + 1..], false);
        assert text + (part + CatsText(categories[i + 1..], false))
               == text + part + CatsText(categories[i + 1..], false);
        text := text + part;
      }
      assert CatsText(categories[|categories|..], |categories| == 0) == "" && text + "" == text;
      disk := Some(text);
    }
  }
}
