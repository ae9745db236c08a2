/** enrollment/src/config.c: the device allowlist. */
module Allowlist {
  import opened Text
  import opened Numbers
  import opened Trimming

  // ----- Specification -----

  /** The lines of a file, without their newlines. A final newline does not start another line. */
  function Lines(file: string): seq<string> {
    if file == "" then []
    else
      match IndexOf(file, '\n')
      case None => [file]
      case Some(k) => [file[..k]] + Lines(file[k + 1..])
  }

  /** What a line comes to: the C string at its start, without the white space around it. */
  function Device(line: string): string {
    Trim(CStr(line), CLocale)
  }

  predicate IsEntry(device: string) {
    device != "" && device[0] != '#'
  }

  function Entries(lines: seq<string>): seq<string> {
    if lines == [] then []
    else
      var device := Device(lines[0]);
      (if IsEntry(device) then [device] else []) + Entries(lines[1..])
  }

  // ----- The code -----

  /** trim_line: the position of the first character kept; what follows the last one is overwritten with NULs. */
  method TrimLine(line: array<char>) returns (start: nat)
    requires line.Length > 0 && line[line.Length - 1] == '\0'
    modifies line
    ensures start < line.Length && CStr(line[start..]) == Trim(CStr(old(line[..])), CLocale)
  {
    hide TrimRight, CStr;
    ghost var text := CStr(line[..]);
    ghost var n := |text|;
    assert n < line.Length && line[n] == '\0' && line[..n] == text by { Terminates(line[..]); }
    start := 0;
    assert text[0..] == text;
    while line[start] != '\0' && IsSpace(line[start])
      invariant 0 <= start <= n && TrimLeft(text[start..], CLocale) == TrimLeft(text, CLocale)
      decreases n - start
    {
      assert line[start] == text[start];
      assert text[start..][1..] == text[start + 1..];
      start := start + 1;
    }
    assert start < n ==> line[start] == text[start];
    assert text[start..] == TrimLeft(text, CLocale);
    var end := CutEnd(line, start, text);
    assert line[start..][..end - start] == line[start..end] == text[start..end];
    CStrIs(line[start..], text[start..end]);
  }

  lemma Terminates(b: string)
    requires b != "" && b[|b| - 1] == '\0'
    ensures |CStr(b)| < |b| && b[|CStr(b)|] == '\0' && b[..|CStr(b)|] == CStr(b)
  {
    assert b[|b| - 1] in b;
  }

  lemma OneSpaceLess(text: string, start: nat, end: nat)
    requires start < end <= |text| && IsSpace(text[end - 1])
    ensures TrimRight(text[start..end], CLocale) == TrimRight(text[start..end - 1], CLocale)
  {
    assert text[start..end][..end - start - 1] == text[start..end - 1];
  }

  /** The second loop of trim_line, from the terminating NUL back to start. */
  method CutEnd(line: array<char>, start: nat, ghost text: string) returns (end: nat)
    requires |text| < line.Length && line[|text|] == '\0' && line[..|text|] == text && '\0' !in text
    requires start <= |text|
    modifies line
    ensures start <= end <= |text| && line[..end] == text[..end] && line[end] == '\0'
    ensures text[start..end] == TrimRight(text[start..], CLocale)
  {
    hide CStr, TrimRight;
    assert line[start..][..|text| - start] == text[start..];
    CStrIs(line[start..], text[start..]);
    end := start + |CStr(line[start..])|;  // line + strlen(line)
    while end > start && IsSpace(line[end - 1])
      invariant start <= end <= |text|
      invariant line[..end] == text[..end] && line[end] == '\0'
      invariant TrimRight(text[start..], CLocale) == TrimRight(text[start..end], CLocale)
    {
      OneSpaceLess(text, start, end);
      end := end - 1;
      line[end] := '\0';
    }
    EndsClean(text[start..end]);
    assert end > start ==> line[end - 1] == text[start..end][end - start - 1];
  }

  lemma EndsClean(s: string)
    ensures s == "" || !IsSpace(s[|s| - 1]) ==> TrimRight(s, CLocale) == s
  {
  }

  lemma LinesStep(rest: string)
    requires rest != ""
    ensures match IndexOf(rest, '\n')
            case None => Lines(rest) == [rest] && Lines(rest[|rest|..]) == []
            case Some(k) => Lines(rest) == [rest[..k]] + Lines(rest[k + 1..])
  {
  }

  /** The newline that getline leaves at the end of a line is trimmed with the rest. */
  lemma NewlineTrims(text: string)
    ensures Device(text + "\n") == Device(text)
  {
    hide Trim, Trimmed;
    var t := Device(text);
    if '\0' in text {
      CStrIs(text + "\n", CStr(text));
    } else {
      CStrIs(text, text);
      CStrIs(text + "\n", text + "\n");
      TrimIff(text, t, CLocale);
      var a, b :| AllOf(a, CLocale) && AllOf(b, CLocale) && text == a + t + b;
      assert text + "\n" == a + t + (b + "\n");
      TrimWrapped(a, t, b + "\n", CLocale);
    }
  }

  lemma NoLines()
    ensures Entries(Lines("")) == []
  {
  }

  /** What the first line of a file, with its newline, contributes to the entries. */
  lemma FirstEntry(rest: string)
    requires rest != ""
    ensures var newline := IndexOf(rest, '\n');
            var k := if newline.Some? then newline.value + 1 else |rest|;
            var device := Device(rest[..k]);
            Entries(Lines(rest)) == (if IsEntry(device) then [device] else []) + Entries(Lines(rest[k..]))
  {
    hide Lines, Entries, Device, IndexOf, IsEntry;
    LinesStep(rest);
    match IndexOf(rest, '\n')
    case None =>
      assert rest[..|rest|] == rest && [rest] + [] == [rest];
      EntriesCons(rest, []);
      NoLines();
    case Some(k) =>
      FirstEntryLine(rest, k);
  }

  lemma FirstEntryLine(rest: string, k: nat)
    requires k < |rest| && rest[k] == '\n' && Lines(rest) == [rest[..k]] + Lines(rest[k + 1..])
    ensures var device := Device(rest[..k + 1]);
            Entries(Lines(rest)) == (if IsEntry(device) then [device] else []) + Entries(Lines(rest[k + 1..]))
  {
    hide Lines, Entries, Device, IsEntry;
    NewlineTrims(rest[..k]);
    assert rest[..k + 1] == rest[..k] + "\n";
    EntriesCons(rest[..k], Lines(rest[k + 1..]));
  }

  lemma EntriesCons(line: string, more: seq<string>)
    ensures Entries([line] + more) == (if IsEntry(Device(line)) then [Device(line)] else []) + Entries(more)
  {
    hide Device;
    assert ([line] + more)[1..] == more;
  }

  /** A line in getline's buffer, trimmed in place. */
  method TrimmedLine(got: string) returns (device: string)
    ensures device == Device(got)
  {
    var line := new char[|got| + 1](i => if 0 <= i < |got| then got[i] else '\0');
    assert line[..][..|got|] == got;
    CStrTerminated(line[..], |got|);
    var start := TrimLine(line);
    device := CStr(line[start..]);
  }

  class Config {
    var allowAnyDevice: bool
    var allowedDevices: array<string>
    var allowedDeviceCount: nat

    ghost predicate Valid()
      reads this
    {
      allowedDeviceCount <= allowedDevices.Length
    }

    ghost function Devices(): (devices: seq<string>)
      requires Valid()
      reads this, allowedDevices
    {
      allowedDevices[..allowedDeviceCount]
    }

    constructor (allowAnyDevice: bool)
      ensures Valid() && fresh(allowedDevices)
      ensures this.allowAnyDevice == allowAnyDevice && Devices() == []
    {
      this.allowAnyDevice := allowAnyDevice;
      allowedDevices, allowedDeviceCount := new string[0], 0;
    }

    /** append_allowed_device: realloc moves the array to a place with room for one more. */
    method Append(device: string)
      requires Valid()
      modifies this`allowedDevices, this`allowedDeviceCount
      ensures Valid() && fresh(allowedDevices) && allowedDevices.Length == old(allowedDeviceCount) + 1
      ensures Devices() == old(Devices()) + [device]
    {
      var next := new string[allowedDeviceCount + 1];
      forall i | 0 <= i < allowedDeviceCount {
        next[i] := allowedDevices[i];
      }
      allowedDevices := next;
      allowedDevices[allowedDeviceCount] := device;
      allowedDeviceCount := allowedDeviceCount + 1;
    }

    /** load_allowlist; getline hands out one line after the other. */
    method Load(file: string)
      requires Valid()
      modifies this`allowedDevices, this`allowedDeviceCount
      ensures Valid() && (allowedDevices == old(allowedDevices) || fresh(allowedDevices))
      ensures Devices() == old(Devices()) + Entries(Lines(file))
    {
      hide Lines, Entries, Device;
      NoLines();
      var rest := file;
      while rest != ""
        invariant Valid() && (allowedDevices == old(allowedDevices) || fresh(allowedDevices))
        invariant Devices() + Entries(Lines(rest)) == old(Devices()) + Entries(Lines(file))
        decreases |rest|
      {
        var newline := IndexOf(rest, '\n');
        var k := if newline.Some? then newline.value + 1 else |rest|;
        FirstEntry(rest);
        var device := TrimmedLine(rest[..k]);
        rest := rest[k..];
        if device == "" || device[0] == '#' {
          continue;
        }
        ghost var before, later := Devices(), Entries(Lines(rest));
        Append(device);
        assert before + [device] + later == before + ([device] + later);
      }
    }

    /** nr_enroll_device_allowed */
    method Allowed(device: string) returns (allowed: bool)
      requires Valid()
      ensures allowed <==> allowAnyDevice || device in Devices()
    {
      if allowAnyDevice {
        return true;
      }
      for i := 0 to allowedDeviceCount
        invariant device !in allowedDevices[..i]
      {
        if allowedDevices[i] == device {
          return true;
        }
      }
      return false;
    }
  }

  // ----- What is allowed -----

  /**
   * The entries are the texts that are neither empty nor comments nor have white space at an end, and that some line,
   * up to its first NUL, consists of together with white space around them.
   */
  lemma {:induction false} EntryIff(lines: seq<string>, device: string)
    ensures device in Entries(lines) <==>
            device != "" && device[0] != '#' && Trimmed(device, CLocale)
            && exists l | l in lines :: Wraps(CStr(l), device, CLocale)
  {
    hide Trimmed, Wraps, Trim, CStr;
    if lines != [] {
      EntryIff(lines[1..], device);
      TrimIff(CStr(lines[0]), device, CLocale);
      assert lines == [lines[0]] + lines[1..];
    }
  }

  function Unlines(lines: seq<string>): string {
    if lines == [] then "" else lines[0] + "\n" + Unlines(lines[1..])
  }

  /** The lines hold no newline, and ended by newlines they are the file, which may lack the last one. */
  lemma {:induction false} LinesAre(file: string)
    ensures forall l | l in Lines(file) :: '\n' !in l
    ensures Unlines(Lines(file))
         == if file == "" || file[|file| - 1] == '\n' then file else file + "\n"
  {
    hide Lines, Unlines;
    WithoutNewlines(file);
    Glued(file);
  }

  lemma {:induction false} WithoutNewlines(file: string)
    ensures forall l | l in Lines(file) :: '\n' !in l
  {
    if file != "" {
      hide Lines;
      LinesStep(file);
      if IndexOf(file, '\n').Some? {
        WithoutNewlines(file[IndexOf(file, '\n').value + 1..]);
      }
    }
  }

  /** A text with a newline at its end, unless it has one or is empty. */
  function Ended(s: string): string {
    if s == "" || s[|s| - 1] == '\n' then s else s + "\n"
  }

  lemma EndedCons(head: string, rest: string)
    ensures Ended(head + "\n" + rest) == head + "\n" + Ended(rest)
  {
    var s := head + "\n" + rest;
    if rest != "" {
      assert s[|s| - 1] == rest[|rest| - 1];
    }
  }

  lemma {:induction false} Glued(file: string)
    ensures Unlines(Lines(file)) == Ended(file)
    decreases |file|, 1
  {
    if file != "" {
      LinesStep(file);
      match IndexOf(file, '\n') {
        case None =>
          OneLine(file);
          assert file[|file| - 1] in file;
        case Some(k) =>
          GluedStep(file, k);
      }
    }
  }

  lemma GluedStep(file: string, k: nat)
    requires k < |file| && file[k] == '\n' && Lines(file) == [file[..k]] + Lines(file[k + 1..])
    ensures Unlines(Lines(file)) == Ended(file)
    decreases |file|, 0
  {
    hide Lines, Unlines, Ended;
    var rest := file[k + 1..];
    Glued(rest);
    UnlinesCons(file[..k], Lines(rest));
    assert file == file[..k] + "\n" + rest;
    EndedCons(file[..k], rest);
  }

  lemma OneLine(line: string)
    ensures Unlines([line]) == line + "\n"
  {
    assert Unlines([line][1..]) == "";
  }

  lemma UnlinesCons(line: string, lines: seq<string>)
    ensures Unlines([line] + lines) == line + "\n" + Unlines(lines)
  {
    assert ([line] + lines)[1..] == lines;
  }

  /**
   * Loading an allowlist and then asking for a device: it is allowed exactly when any device is, or some line of the
   * file, up to its first NUL, is that device with white space around it, the device being neither empty nor a comment
   * and having no white space at its ends.
   */
  method LoadThenAsk(allowAnyDevice: bool, file: string, device: string) returns (allowed: bool)
    ensures allowed <==>
            || allowAnyDevice
            || (device != "" && device[0] != '#' && Trimmed(device, CLocale)
                && exists l | l in Lines(file) :: Wraps(CStr(l), device, CLocale))
  {
    hide Wraps, Trimmed, CStr, Lines;
    var cfg := new Config(allowAnyDevice);
    cfg.Load(file);
    allowed := cfg.Allowed(device);
    EntryIff(Lines(file), device);
    assert [] + Entries(Lines(file)) == Entries(Lines(file));
  }
}
