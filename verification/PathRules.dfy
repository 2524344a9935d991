/** Letters, suffixes and the forms of paths, spelled out. */
module PathRules {
  import opened ContentIdentity
  import opened Digest
  import opened EntryContext
  import opened EntryLayout
  import opened NameRules
  import opened RootedPath
  import opened WidePath
  import opened Wrappers

  // ---------------------------------------------------------------- letters

  lemma LettersExactly(c: char)
    ensures IsLetter(c) <==> c in CAPITALS + LETTERS
    ensures c !in LETTERS ==> UpperOf(c) == c
    ensures c !in CAPITALS ==> LowerOf(c) == c
  {
    hide LETTERS, CAPITALS;
    Letter(c);
    Capital(c);
  }

  /** The other case of a letter stands at the same place of the alphabet. */
  lemma CasesExactly(i: nat)
    requires i < 26
    ensures UpperOf(LETTERS[i]) == CAPITALS[i] && LowerOf(CAPITALS[i]) == LETTERS[i]
  {
    assert LETTERS[i] as int == 97 + i && CAPITALS[i] as int == 65 + i by { PlaceInAlphabet(i); }
  }

  lemma PlaceInAlphabet(i: nat)
    requires i < 26
    ensures LETTERS[i] as int == 97 + i && CAPITALS[i] as int == 65 + i
  {
  }

  // ---------------------------------------------------------------- names of files

  /** An executable's name: something before `.exe`, in any case. */
  lemma ExeExactly(file: string)
    ensures HasExeSuffix(file) <==> |file| > 4 && Lowered(file[|file| - 4..]) == ".exe"
  {
    if |file| > 4 {
      var suffix := file[|file| - 4..];
      assert suffix == [file[|file| - 4], file[|file| - 3], file[|file| - 2], file[|file| - 1]];
      var lowered := Lowered(suffix);
      assert lowered == ".exe" <==> lowered[0] == '.' && lowered[1] == 'e' && lowered[2] == 'x' && lowered[3] == 'e';
    }
  }

  /** A release is named by 64 hexadecimal digits in small letters, and selected by that name on a line of its own. */
  lemma SelectorsExactly(record: string)
    ensures IsReleaseId(record) <==> |record| == 64 && forall c :: c in record ==> c in "0123456789abcdef"
    ensures IsSelectorRecord(record) <==> exists id :: IsReleaseId(id) && record == id + "\n"
  {
    hide IsSha256;
    RevisionShape(record);
    if IsSelectorRecord(record) {
      assert record == record[..64] + "\n";
    }
    if id :| IsReleaseId(id) && record == id + "\n" {
      RevisionShape(id);
      assert record[..64] == id;
    }
  }

  /** A file name splits at its last dot, unless that is its first character or there is none. */
  lemma StemsExactly(name: string)
    ensures match StemAndExtension(name)
            case (stem, Some(extension)) => stem != "" && name == stem + "." + extension && '.' !in extension
            case (stem, None) => stem == name && '.' !in name[if name == "" then 0 else 1..]
  {
    LastDotIsLast(name, |name|);
    if LastDot(name, |name|).Some? {
      var k := LastDot(name, |name|).value;
      assert name == name[..k] + "." + name[k + 1..];
    }
  }

  lemma {:induction false} LastDotIsLast(s: string, before: nat)
    requires before <= |s|
    ensures LastDot(s, before) == None ==> forall i :: 0 <= i < before ==> s[i] != '.'
    ensures LastDot(s, before).Some? ==>
              s[LastDot(s, before).value] == '.' && forall i :: LastDot(s, before).value < i < before ==> s[i] != '.'
  {
    if before > 0 && s[before - 1] != '.' { LastDotIsLast(s, before - 1); }
  }

  // ---------------------------------------------------------------- the launcher's four forms

  ghost predicate DriveForm(path: string, letter: char, rest: string) {
    letter in CAPITALS + LETTERS && path == [letter] + ":\\" + rest
  }

  ghost predicate UncForm(path: string, rest: string) {
    path == "\\\\" + rest && rest != "" && rest[0] != '?' && rest[0] != '.'
  }

  ghost predicate ExtendedUncForm(path: string, mark: string, rest: string) {
    path == "\\\\?\\" + mark + "\\" + rest && |mark| == 3 && Lowered(mark) == "unc" && rest != ""
  }

  lemma DriveForms(path: string, letter: char, rest: string)
    requires DriveForm(path, letter, rest)
    ensures Extended(path) == Some("\\\\?\\" + path) && Dos(path) == Some(path)
    ensures Extended("\\\\?\\" + path) == Some("\\\\?\\" + path) && Dos("\\\\?\\" + path) == Some(path)
  {
    hide LETTERS, CAPITALS;
    LettersExactly(letter);
    var extended := "\\\\?\\" + path;
    assert extended[4..] == path && path[0] == letter && path[1] == ':' && path[2] == '\\';
    assert extended[4] == letter && extended[5] == ':';
  }

  lemma UncForms(path: string, rest: string)
    requires UncForm(path, rest)
    ensures Extended(path) == Some("\\\\?\\UNC\\" + rest) && Dos(path) == Some(path)
  {
    assert path[2..] == rest && path[2] == rest[0] && path[0] == '\\' && path[1] == '\\';
  }

  lemma UncMark(mark: string)
    requires |mark| == 3
    ensures Lowered(mark) == "unc" <==> UpperOf(mark[0]) == 'U' && UpperOf(mark[1]) == 'N' && UpperOf(mark[2]) == 'C'
  {
    var lowered := Lowered(mark);
    assert lowered == "unc" <==> lowered[0] == 'u' && lowered[1] == 'n' && lowered[2] == 'c';
  }

  lemma ExtendedUncForms(path: string, mark: string, rest: string)
    requires ExtendedUncForm(path, mark, rest)
    ensures Extended(path) == Some(path) && Dos(path) == Some("\\\\" + rest)
  {
    hide Lowered;
    UncMark(mark);
    assert path[8..] == rest && path[4] == mark[0] && path[5] == mark[1] && path[6] == mark[2] && path[7] == '\\';
    assert path[0] == '\\' && path[1] == '\\' && path[2] == '?';
  }

  ghost predicate HasForm(path: string) {
    || (exists letter, rest :: DriveForm(path, letter, rest))
    || (exists rest :: UncForm(path, rest))
    || (exists mark, rest :: ExtendedUncForm(path, mark, rest))
    || (|path| >= 4 && path[..4] == "\\\\?\\" && exists letter, rest :: DriveForm(path[4..], letter, rest))
  }

  lemma DriveHasForm(path: string)
    requires DriveAbsolute(path)
    ensures DriveForm(path, path[0], path[3..])
  {
    hide LETTERS, CAPITALS;
    LettersExactly(path[0]);
    assert path == [path[0]] + ":\\" + path[3..];
  }

  /** A path converts exactly when it has one of the four forms. */
  lemma ConvertsExactlyWhen(path: string)
    ensures Dos(path).Some? <==> HasForm(path)
    ensures Extended(path).Some? <==> HasForm(path)
  {
    hide DriveForm, UncForm, ExtendedUncForm;
    if DriveAbsolute(path) {
      DriveHasForm(path);
    } else if PlainUnc(path) {
      PlainHasForm(path);
    } else if ExtendedUnc(path) {
      ExtendedHasForm(path);
    } else if ExtendedDrive(path) {
      DriveHasForm(path[4..]);
    }
    if HasForm(path) { FormConverts(path); }
  }

  lemma PlainHasForm(path: string)
    requires PlainUnc(path)
    ensures UncForm(path, path[2..])
  {
    assert path == "\\\\" + path[2..];
  }

  lemma ExtendedHasForm(path: string)
    requires ExtendedUnc(path)
    ensures ExtendedUncForm(path, path[4..7], path[8..])
  {
    hide Lowered;
    UncMark(path[4..7]);
    assert path == "\\\\?\\" + path[4..7] + "\\" + path[8..];
  }

  lemma FormConverts(path: string)
    requires HasForm(path)
    ensures Dos(path).Some? && Extended(path).Some?
  {
    hide Dos, Extended, DriveForm, UncForm, ExtendedUncForm;
    if letter, rest :| DriveForm(path, letter, rest) {
      DriveForms(path, letter, rest);
    } else if rest :| UncForm(path, rest) {
      UncForms(path, rest);
    } else if mark, rest :| ExtendedUncForm(path, mark, rest) {
      ExtendedUncForms(path, mark, rest);
    } else {
      var letter, rest :| DriveForm(path[4..], letter, rest);
      DriveForms(path[4..], letter, rest);
      assert path == "\\\\?\\" + path[4..];
    }
  }

  // ---------------------------------------------------------------- how the Core reads ordinary paths

  lemma RestOfSeparator(separator: char, rest: string)
    requires IsSeparator(separator)
    ensures Components([separator] + rest) == Components(rest)
  {
    ComponentsJoined("", separator, rest);
    assert "" + [separator] + rest == [separator] + rest;
    ComponentsOfNothing();
  }

  /** A drive: its letter as a capital, and the components behind it. */
  lemma DriveIsRead(letter: char, separator: char, rest: string)
    requires IsLetter(letter) && IsSeparator(separator)
    ensures ParseRooted([letter, ':', separator] + rest) == Some(RootedPath(Disk(UpperOf(letter)), Components(rest)))
  {
    hide Components;
    var path := [letter, ':', separator] + rest;
    assert path[0] == letter && path[1] == ':' && path[2] == separator && path[2..] == [separator] + rest;
    RestOfSeparator(separator, rest);
  }

  ghost predicate Plain(name: string) {
    name != "" && forall i :: 0 <= i < |name| ==> !IsSeparator(name[i])
  }

  lemma NextIs(name: string, separator: char, rest: string)
    requires Plain(name) && IsSeparator(separator)
    ensures NextComponent(name + [separator] + rest) == (name, rest)
  {
    hide FirstSeparator;
    var whole := name + [separator] + rest;
    FirstIs(whole, |name|, 0);
    assert whole[..|name|] == name && whole[|name| + 1..] == rest;
  }

  /** A share: two separators, server and share, and the components behind them, unless a device or verbatim mark. */
  lemma ShareIsRead(a: char, b: char, server: string, c: char, share: string, d: char, rest: string)
    requires IsSeparator(a) && IsSeparator(b) && IsSeparator(c) && IsSeparator(d) && Plain(server) && Plain(share)
    requires server != "." && !(a == '\\' && b == '\\' && server == "?" && c == '\\')
    ensures ParseRooted([a, b] + (server + [c] + (share + [d] + rest))) == Some(RootedPath(Unc(server, share), Components(rest)))
  {
    hide Components, NextComponent;
    var body := server + [c] + (share + [d] + rest);
    var path := [a, b] + body;
    NextIs(server, c, share + [d] + rest);
    NextIs(share, d, rest);
    assert path[2..] == body && path[0] == a && path[1] == b;
    assert body[0] == server[0] && (|server| == 1 ==> body[1] == c) && (|server| > 1 ==> body[1] == server[1]);
    if |server| == 1 { assert server == [server[0]]; }
    assert path[2] == body[0] && path[3] == body[1];
    assert a == '\\' && b == '\\' <==> path[..2] == "\\\\";
  }

  /** Nothing is read that does not start with two separators or with a drive and a separator. */
  lemma RootedStarts(path: string)
    requires ParseRooted(path).Some?
    ensures || (|path| >= 2 && IsSeparator(path[0]) && IsSeparator(path[1]))
            || (|path| >= 3 && IsLetter(path[0]) && path[1] == ':' && IsSeparator(path[2]))
  {
    hide Components, NextComponent, Segments, NextSegment;
    if Verbatim(path) {
      assert path[..4] == "\\\\?\\";
      assert path[0] == path[..4][0] && path[1] == path[..4][1];
    }
  }

  /** The name of a file is its last component, unless that leads elsewhere. */
  lemma FileNamesExactly(path: RootedPath, last: string)
    ensures path.Child(last).FileName() == if last in {".", ".."} then None else Some(last)
    ensures path.Child(last).Parent() == Some(path)
  {
    assert (path.components + [last])[..|path.components|] == path.components;
  }
}
