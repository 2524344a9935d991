/**
 Absolute Windows paths in NUL-terminated buffers: the extended and the DOS form, and copying between them.

 A `char` stands for one WCHAR.
 */
module WidePath {
  import opened Wrappers

  const NUL: char := '\0'

  // ---------------------------------------------------------------- terminated buffers

  predicate Terminated(buffer: seq<char>) {
    NUL in buffer
  }

  /** The text before the first NUL. */
  function TextOf(buffer: seq<char>): (text: string)
    requires Terminated(buffer)
    ensures NUL !in text && |text| < |buffer| && text + [NUL] <= buffer
  {
    if buffer[0] == NUL then []
    else
      assert buffer == [buffer[0]] + buffer[1..];
      [buffer[0]] + TextOf(buffer[1..])
  }

  lemma {:induction false} TextIs(buffer: seq<char>, text: string)
    requires NUL !in text && text + [NUL] <= buffer
    ensures Terminated(buffer) && TextOf(buffer) == text
  {
    assert buffer[|text|] == NUL;
    if text != [] {
      assert buffer[0] == text[0];
      assert (text + [NUL])[1..] == text[1..] + [NUL];
      TextIs(buffer[1..], text[1..]);
    }
  }

  method WideLength(value: array<char>) returns (length: nat)
    requires Terminated(value[..])
    ensures length == |TextOf(value[..])|
  {
    ghost var text := TextOf(value[..]);
    length := 0;
    while value[length] != NUL
      invariant length <= |text|
      decreases |text| - length
    {
      assert (text + [NUL])[length] == value[..][length];
      length := length + 1;
    }
    assert value[..][length] == (text + [NUL])[length];
  }

  // ---------------------------------------------------------------- the forms of a path

  predicate IsLetter(c: char) {
    'A' <= c <= 'Z' || 'a' <= c <= 'z'
  }

  function UpperOf(c: char): char {
    if 'a' <= c <= 'z' then c - 'a' + 'A' else c
  }

  predicate DriveAbsolute(path: string) {
    |path| >= 3 && IsLetter(path[0]) && path[1] == ':' && path[2] == '\\'
  }

  predicate Verbatim(path: string) {
    "\\\\?\\" <= path
  }

  predicate ExtendedUnc(path: string) {
    |path| >= 9 && Verbatim(path) && UpperOf(path[4]) == 'U' && UpperOf(path[5]) == 'N' && UpperOf(path[6]) == 'C' && path[7] == '\\'
  }

  predicate ExtendedDrive(path: string) {
    |path| >= 7 && Verbatim(path) && DriveAbsolute(path[4..])
  }

  predicate ExtendedAbsolute(path: string) {
    ExtendedUnc(path) || ExtendedDrive(path)
  }

  /** A UNC path that is no device or verbatim path. */
  predicate PlainUnc(path: string) {
    |path| >= 3 && path[0] == '\\' && path[1] == '\\' && path[2] != '?' && path[2] != '.'
  }

  function Extended(path: string): Option<string> {
    if ExtendedAbsolute(path) then Some(path)
    else if DriveAbsolute(path) then Some("\\\\?\\" + path)
    else if PlainUnc(path) then Some("\\\\?\\UNC\\" + path[2..])
    else None
  }

  function Dos(path: string): Option<string> {
    if DriveAbsolute(path) || PlainUnc(path) then Some(path)
    else if ExtendedUnc(path) then Some("\\\\" + path[8..])
    else if ExtendedDrive(path) then Some(path[4..])
    else None
  }

  /** Both conversions accept the same paths. */
  lemma SamePaths(path: string)
    ensures Extended(path).Some? <==> Dos(path).Some?
  {
  }

  lemma ExtendedIsIdempotent(path: string)
    requires Extended(path).Some?
    ensures ExtendedAbsolute(Extended(path).value) && Extended(Extended(path).value) == Extended(path)
  {
    var extended := Extended(path).value;
    if !ExtendedAbsolute(path) && DriveAbsolute(path) {
      assert extended[4..] == path;
    }
  }

  /** Making a path extended first does not change its DOS form. */
  lemma DosOfExtended(path: string)
    requires Dos(path).Some?
    ensures Extended(path).Some? && Dos(Extended(path).value) == Dos(path)
  {
    ExtendedIsIdempotent(path);
    var extended := Extended(path).value;
    if !ExtendedAbsolute(path) {
      if DriveAbsolute(path) {
        assert extended[4..] == path;
      } else {
        assert "\\\\" + extended[8..] == path;
      }
    }
  }

  /**
   An extended path is recovered from its DOS form exactly when it names a drive, or spells `UNC` in
   capitals before a server that is neither `?` nor `.` at its start.
   */
  lemma ExtendedOfDosExactlyWhen(path: string)
    requires ExtendedAbsolute(path)
    ensures Dos(path).Some?
    ensures Extended(Dos(path).value) == Some(path) <==>
            ExtendedDrive(path) || (path[4..7] == "UNC" && path[8] != '?' && path[8] != '.')
  {
    var dos := Dos(path).value;
    if ExtendedUnc(path) {
      assert path[4..][1] == path[5] && !ExtendedDrive(path);
      assert "\\\\?\\" + "UNC" + "\\" == "\\\\?\\UNC\\";
      assert path == path[..4] + path[4..7] + "\\" + path[8..];
      assert |dos| == |path| - 6 && dos[2] == path[8] && !DriveAbsolute(dos);
      if ExtendedAbsolute(dos) {
        assert Extended(dos) == Some(dos);
        assert dos[..4] == "\\\\?\\" && dos[..4][2] == path[8];
      } else if PlainUnc(dos) {
        assert dos[2..] == path[8..];
        var back := "\\\\?\\UNC\\" + path[8..];
        assert back[4..7] == "UNC" && path[..4] == "\\\\?\\";
      }
    } else {
      assert path == "\\\\?\\" + path[4..];
    }
  }

  // ---------------------------------------------------------------- copying

  /** The destination holds exactly this text, within its capacity. */
  predicate Holds(destination: array<char>, capacity: nat, text: string)
    reads destination
  {
    && |text| + 1 <= capacity && Terminated(destination[..]) && TextOf(destination[..]) == text
  }

  lemma HoldsParts(destination: array<char>, capacity: nat, text: string)
    requires NUL !in text && |text| + 1 <= capacity && text + [NUL] <= destination[..]
    ensures Holds(destination, capacity, text)
  {
    TextIs(destination[..], text);
  }

  /** Copies `prefix` and the rest of `source` with its NUL, or nothing at all. */
  method CopyParts(prefix: string, source: array<char>, start: nat, destination: array<char>, capacity: nat) returns (ok: bool)
    requires Terminated(source[..]) && NUL !in prefix && capacity <= destination.Length && source != destination
    modifies destination
    ensures var text := TextOf(source[..]);
            ok <==> start <= |text| && |prefix| + |text| - start + 1 <= capacity
    ensures ok ==> start <= |TextOf(source[..])| && Holds(destination, capacity, prefix + TextOf(source[..])[start..])
    ensures !ok ==> destination[..] == old(destination[..])
  {
    hide TextOf, Holds;
    ghost var text := TextOf(source[..]);
    var length := WideLength(source);
    if start > length || |prefix| + length - start + 1 > capacity {
      return false;
    }
    var at := 0;
    for i := 0 to |prefix|
      invariant at == i && destination[..at] == prefix[..i]
    {
      destination[at] := prefix[i];
      at := at + 1;
    }
    assert prefix[..|prefix|] == prefix;
    ghost var whole := text + [NUL];
    for i := start to length + 1
      invariant at == |prefix| + i - start && destination[..at] == prefix + whole[start..i]
      invariant source[..] == old(source[..])
    {
      assert source[..][i] == whole[i];
      destination[at] := source[i];
      at := at + 1;
      assert whole[start..i + 1] == whole[start..i] + [whole[i]];
    }
    assert whole[start..length + 1] == text[start..] + [NUL];
    assert destination[..at] == prefix + text[start..] + [NUL];
    HoldsParts(destination, capacity, prefix + text[start..]);
    ok := true;
  }

  method IsDriveAbsolute(path: array<char>, start: nat, length: nat) returns (absolute: bool)
    requires Terminated(path[..]) && start + length == |TextOf(path[..])|
    ensures absolute <==> DriveAbsolute(TextOf(path[..])[start..])
  {
    TextAt(path);
    absolute := length >= 3 && IsLetter(path[start]) && path[start + 1] == ':' && path[start + 2] == '\\';
  }

  /** Reading below the terminator reads the text. */
  lemma TextAt(path: array<char>)
    requires Terminated(path[..])
    ensures |TextOf(path[..])| < path.Length
    ensures forall i :: 0 <= i < |TextOf(path[..])| ==> path[i] == TextOf(path[..])[i]
    ensures path[|TextOf(path[..])|] == NUL
  {
    var text := TextOf(path[..]);
    assert forall i :: 0 <= i < |text| ==> (text + [NUL])[i] == text[i];
    assert (text + [NUL])[|text|] == path[..][|text|];
  }

  method IsExtendedUnc(path: array<char>, length: nat) returns (unc: bool)
    requires Terminated(path[..]) && length == |TextOf(path[..])|
    ensures unc <==> ExtendedUnc(TextOf(path[..]))
  {
    TextAt(path);
    ghost var text := TextOf(path[..]);
    assert length >= 4 ==> text[..4] == [text[0], text[1], text[2], text[3]];
    unc := length >= 9 && path[0] == '\\' && path[1] == '\\' && path[2] == '?' && path[3] == '\\'
           && UpperOf(path[4]) == 'U' && UpperOf(path[5]) == 'N' && UpperOf(path[6]) == 'C'
           && path[7] == '\\' && path[8] != NUL;
  }

  method IsExtendedAbsolutePath(path: array?<char>) returns (absolute: bool)
    requires path != null ==> Terminated(path[..])
    ensures absolute <==> path != null && ExtendedAbsolute(TextOf(path[..]))
  {
    if path == null { return false; }
    TextAt(path);
    var length := WideLength(path);
    var unc := IsExtendedUnc(path, length);
    if unc { return true; }
    ghost var text := TextOf(path[..]);
    assert length >= 4 ==> text[..4] == [text[0], text[1], text[2], text[3]];
    if length >= 7 && path[0] == '\\' && path[1] == '\\' && path[2] == '?' && path[3] == '\\' {
      absolute := IsDriveAbsolute(path, 4, length - 4);
    } else {
      absolute := false;
    }
  }

  /** The forms of a path, decided character by character. */
  lemma FormsByCharacter(text: string)
    ensures |text| >= 3 ==> (PlainUnc(text) <==> text[0] == '\\' && text[1] == '\\' && text[2] != '?' && text[2] != '.')
    ensures |text| < 3 ==> !PlainUnc(text)
    ensures ExtendedUnc(text) ==> |text| >= 9
    ensures ExtendedDrive(text) <==> && |text| >= 7 && text[0] == '\\' && text[1] == '\\' && text[2] == '?' && text[3] == '\\'
                                     && DriveAbsolute(text[4..])
  {
    hide DriveAbsolute;
    assert |text| >= 4 ==> text[..4] == [text[0], text[1], text[2], text[3]];
  }

  method CopyExtendedAbsolutePath(source: array?<char>, destination: array?<char>, capacity: nat) returns (ok: bool)
    requires source != null ==> Terminated(source[..])
    requires destination != null ==> capacity <= destination.Length && source != destination
    modifies destination
    ensures ok <==> && source != null && destination != null
                    && Extended(old(TextOf(source[..]))).Some? && |Extended(old(TextOf(source[..]))).value| + 1 <= capacity
    ensures ok ==> Holds(destination, capacity, Extended(old(TextOf(source[..]))).value)
    ensures !ok && destination != null ==> destination[..] == old(destination[..])
  {
    hide TextOf, Holds, DriveAbsolute, PlainUnc, ExtendedDrive, ExtendedUnc;
    if source == null || destination == null || capacity == 0 { return false; }
    TextAt(source);
    ghost var text := TextOf(source[..]);
    FormsByCharacter(text);
    var length := WideLength(source);
    var extended := IsExtendedAbsolutePath(source);
    if extended {
      ok := CopyParts("", source, 0, destination, capacity);
      assert "" + text[0..] == text;
      return;
    }
    var drive := IsDriveAbsolute(source, 0, length);
    assert text[0..] == text;
    if drive {
      ok := CopyParts("\\\\?\\", source, 0, destination, capacity);
      return;
    }
    if length >= 3 && source[0] == '\\' && source[1] == '\\' && source[2] != '?' && source[2] != '.' && source[2] != NUL {
      ok := CopyParts("\\\\?\\UNC\\", source, 2, destination, capacity);
      return;
    }
    ok := false;
  }

  method CopyDosAbsolutePath(source: array?<char>, destination: array?<char>, capacity: nat) returns (ok: bool)
    requires source != null ==> Terminated(source[..])
    requires destination != null ==> capacity <= destination.Length && source != destination
    modifies destination
    ensures ok <==> && source != null && destination != null
                    && Dos(old(TextOf(source[..]))).Some? && |Dos(old(TextOf(source[..]))).value| + 1 <= capacity
    ensures ok ==> Holds(destination, capacity, Dos(old(TextOf(source[..]))).value)
    ensures !ok && destination != null ==> destination[..] == old(destination[..])
  {
    hide TextOf, Holds, DriveAbsolute, PlainUnc, ExtendedDrive, ExtendedUnc;
    if source == null || destination == null || capacity == 0 { return false; }
    TextAt(source);
    ghost var text := TextOf(source[..]);
    assert text[0..] == text;
    FormsByCharacter(text);
    var length := WideLength(source);
    var drive := IsDriveAbsolute(source, 0, length);
    if drive || (length >= 3 && source[0] == '\\' && source[1] == '\\' && source[2] != '?' && source[2] != '.') {
      ok := CopyParts("", source, 0, destination, capacity);
      assert "" + text[0..] == text;
      return;
    }
    var unc := IsExtendedUnc(source, length);
    if unc {
      ok := CopyParts("\\\\", source, 8, destination, capacity);
      return;
    }
    if length >= 7 && source[0] == '\\' && source[1] == '\\' && source[2] == '?' && source[3] == '\\' {
      var inner := IsDriveAbsolute(source, 4, length - 4);
      if inner {
        ok := CopyParts("", source, 4, destination, capacity);
        assert "" + text[4..] == text[4..];
        return;
      }
    }
    ok := false;
  }
}
