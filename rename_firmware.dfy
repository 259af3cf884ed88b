/** The build hook that renames the firmware image: each piece of build metadata is made
    filename-safe, the pieces are joined as `<prog>_<env>_<board>_<version>`, and the result is
    written back into the build environment's `PROGNAME`. */
module RenameFirmware {
  import opened Common

  /** Python's `str.isspace`: the characters `str.strip()` removes. */
  predicate IsSpace(c: char)
  {
    ('\t' <= c <= '\r') || ('\U{1c}' <= c <= '\U{1f}') || c == ' ' || c == '\U{85}' || c == '\U{a0}'
    || c == '\U{1680}' || ('\U{2000}' <= c <= '\U{200a}') || c == '\U{2028}' || c == '\U{2029}'
    || c == '\U{202f}' || c == '\U{205f}' || c == '\U{3000}'
  }

  /** A character the pattern `[^A-Za-z0-9._-]` leaves alone. */
  predicate SafeChar(c: char)
  {
    ('A' <= c <= 'Z') || ('a' <= c <= 'z') || ('0' <= c <= '9') || c == '.' || c == '_' || c == '-'
  }

  predicate Safe(s: string)
  {
    forall i :: 0 <= i < |s| ==> SafeChar(s[i])
  }

  lemma SafeCharIsNotSpace(c: char)
    requires SafeChar(c)
    ensures !IsSpace(c) && c != ' '
  {
  }

  /** How many whitespace characters open `s`. */
  function LeadingSpaces(s: string): (n: nat)
    ensures n <= |s|
    ensures forall i :: 0 <= i < n ==> IsSpace(s[i])
    ensures n < |s| ==> !IsSpace(s[n])
  {
    if s == [] || !IsSpace(s[0]) then 0 else 1 + LeadingSpaces(s[1..])
  }

  /** How many whitespace characters close `s`. */
  function TrailingSpaces(s: string): (n: nat)
    ensures n <= |s|
    ensures forall i :: |s| - n <= i < |s| ==> IsSpace(s[i])
    ensures n < |s| ==> !IsSpace(s[|s| - n - 1])
  {
    if s == [] || !IsSpace(s[|s| - 1]) then 0 else 1 + TrailingSpaces(s[..|s| - 1])
  }

  /** `s.strip()`: the string without its leading and trailing whitespace. */
  function Strip(s: string): string
  {
    var l := LeadingSpaces(s);
    var rest := s[l..];
    rest[..|rest| - TrailingSpaces(rest)]
  }

  /** The stripped string is a slice of the input with whitespace, and only whitespace, cut
      from both ends; it neither starts nor ends with whitespace. */
  lemma StripIsTrimmedSlice(s: string)
    ensures exists i, j ::
      (0 <= i <= j <= |s| && Strip(s) == s[i..j]
       && (forall k :: 0 <= k < i ==> IsSpace(s[k])) && (forall k :: j <= k < |s| ==> IsSpace(s[k])))
    ensures Strip(s) != [] ==> !IsSpace(Strip(s)[0]) && !IsSpace(Strip(s)[|Strip(s)| - 1])
  {
    var l := LeadingSpaces(s);
    var rest := s[l..];
    var t := TrailingSpaces(rest);
    var j := l + |rest| - t;
    assert Strip(s) == s[l..j];
    forall k | j <= k < |s| ensures IsSpace(s[k]) {
      assert s[k] == rest[k - l];
    }
    if Strip(s) != [] {
      assert Strip(s)[0] == rest[0];
    }
  }

  /** A string without whitespace at either end is left as it is. */
  lemma StripKeepsTrimmed(s: string)
    requires s != [] ==> !IsSpace(s[0]) && !IsSpace(s[|s| - 1])
    ensures Strip(s) == s
  {
  }

  /** `s.replace(" ", "_")`. */
  function ReplaceSpaces(s: string): (r: string)
    ensures |r| == |s|
  {
    seq(|s|, i requires 0 <= i < |s| => if s[i] == ' ' then '_' else s[i])
  }

  /** `re.sub(r"[^A-Za-z0-9._-]", "_", s)`: every other character becomes `_`. */
  function MapUnsafe(s: string): (r: string)
    ensures |r| == |s|
  {
    seq(|s|, i requires 0 <= i < |s| => if SafeChar(s[i]) then s[i] else '_')
  }

  /** `sanitize`: strip, spaces to underscores, then every unsafe character to an underscore. */
  function Sanitize(s: string): string
  {
    MapUnsafe(ReplaceSpaces(Strip(s)))
  }

  /** Every character of a token is in `[A-Za-z0-9._-]`; in particular no space is left. */
  lemma SanitizeSafe(s: string)
    ensures Safe(Sanitize(s))
    ensures forall i :: 0 <= i < |Sanitize(s)| ==> Sanitize(s)[i] != ' '
  {
  }

  /** One character out for each character of the stripped input: the characters the pattern
      accepts stay where they are and every other one is an underscore. */
  lemma SanitizeLength(s: string)
    ensures |Sanitize(s)| == |Strip(s)|
    ensures forall i :: 0 <= i < |Strip(s)| ==>
      Sanitize(s)[i] == if SafeChar(Strip(s)[i]) then Strip(s)[i] else '_'
  {
  }

  /** The space replacement is already done by the pattern: a space is not a safe character. */
  lemma ReplaceSpacesSubsumed(s: string)
    ensures Sanitize(s) == MapUnsafe(Strip(s))
  {
  }

  /** The pattern substitution leaves a safe string as it is. */
  lemma MapUnsafeKeepsSafe(s: string)
    requires Safe(s)
    ensures MapUnsafe(s) == s
  {
  }

  /** `sanitize` leaves a string unchanged exactly when it is already safe. */
  lemma SanitizeFixesExactlySafe(s: string)
    ensures Sanitize(s) == s <==> Safe(s)
  {
    SanitizeSafe(s);
    if Safe(s) {
      if s != [] {
        SafeCharIsNotSpace(s[0]);
        SafeCharIsNotSpace(s[|s| - 1]);
      }
      StripKeepsTrimmed(s);
      assert ReplaceSpaces(s) == s;
      MapUnsafeKeepsSafe(s);
    }
  }

  lemma SanitizeIdempotent(s: string)
    ensures Sanitize(Sanitize(s)) == Sanitize(s)
  {
    SanitizeSafe(s);
    SanitizeFixesExactlySafe(Sanitize(s));
  }

  lemma SanitizeEmpty()
    ensures Sanitize("") == ""
  {
  }

  /** Inner spaces become underscores. */
  lemma SanitizeBoardName()
    ensures Sanitize("My Board v1") == "My_Board_v1"
  {
    var s := "My Board v1";
    StripKeepsTrimmed(s);
    var r := ReplaceSpaces(s);
    assert r == "My_Board_v1" by {
      assert |r| == 11;
      assert r[2] == '_' && r[8] == '_';
      forall i | 0 <= i < 11 && i != 2 && i != 8 ensures r[i] == "My_Board_v1"[i] {
      }
    }
    MapUnsafeKeepsSafe(r);
  }

  /** Outer whitespace goes and an unsafe character becomes an underscore. */
  lemma SanitizeTrimsAndReplaces()
    ensures Sanitize(" v1.2/b\t") == "v1.2_b"
  {
    StripExample();
    ReplaceExample();
  }

  lemma StripExample()
    ensures Strip(" v1.2/b\t") == "v1.2/b"
  {
    var s := " v1.2/b\t";
    var rest := "v1.2/b\t";
    assert s[1..] == rest;
    assert LeadingSpaces(s) == 1;
    assert rest[..6] == "v1.2/b";
    assert TrailingSpaces(rest) == 1;
  }

  lemma ReplaceExample()
    ensures MapUnsafe(ReplaceSpaces("v1.2/b")) == "v1.2_b"
  {
    var r := ReplaceSpaces("v1.2/b");
    assert r == "v1.2/b";
    var m := MapUnsafe(r);
    assert |m| == 6 && m[4] == '_';
    forall i | 0 <= i < 6 && i != 4 ensures m[i] == "v1.2_b"[i] {
    }
  }

  /** Python's `x or default` for a string that may be missing: `None` and `""` are both false. */
  function OrDefault(x: Option<string>, default: string): (r: string)
    ensures x.Some? && x.value != [] ==> r == x.value
    ensures x.None? || x.value == [] ==> r == default
  {
    match x
    case None => default
    case Some(v) => if v == [] then default else v
  }

  const DefaultVersion: string := "0.0.0"
  const DefaultProg: string := "firmware"

  /** `common.version` from the configuration, `None` when the section or option is missing. */
  function VersionOf(configured: Option<string>): (r: string)
    ensures r != []
  {
    OrDefault(configured, DefaultVersion)
  }

  /** The build metadata the hook reads: `env.get("PIOENV")`, and `env.subst` of `${PIOENV}`,
      `${BOARD}` and `${PROGNAME}` (which expand to `""` when unset). */
  datatype BuildVars = BuildVars(pioenvGet: Option<string>, pioenvSubst: string, boardSubst: string, progSubst: string)

  function PioEnvOf(vars: BuildVars): string
  {
    OrDefault(vars.pioenvGet, vars.pioenvSubst)
  }

  function ProgOf(vars: BuildVars): (r: string)
    ensures r != []
  {
    OrDefault(Some(vars.progSubst), DefaultProg)
  }

  /** The four tokens, in the order they are appended. */
  datatype Tokens = Tokens(prog: string, pioenv: string, board: string, version: string)

  function TokensOf(vars: BuildVars, configured: Option<string>): (t: Tokens)
    ensures Safe(t.prog) && Safe(t.pioenv) && Safe(t.board) && Safe(t.version)
  {
    SanitizeSafe(ProgOf(vars));
    SanitizeSafe(PioEnvOf(vars));
    SanitizeSafe(vars.boardSubst);
    SanitizeSafe(VersionOf(configured));
    Tokens(Sanitize(ProgOf(vars)), Sanitize(PioEnvOf(vars)), Sanitize(vars.boardSubst), Sanitize(VersionOf(configured)))
  }

  /** The list the hook builds: the prog token first, the env and board tokens only when they
      are non-empty, and the version token last. */
  method BuildParts(t: Tokens) returns (parts: seq<string>)
    ensures |parts| == 2 + (if t.pioenv != [] then 1 else 0) + (if t.board != [] then 1 else 0)
    ensures parts[0] == t.prog && parts[|parts| - 1] == t.version
    ensures t.pioenv != [] ==> parts[1] == t.pioenv
    ensures t.board != [] ==> parts[|parts| - 2] == t.board
    ensures forall i :: 0 < i < |parts| - 1 ==> parts[i] != []
  {
    parts := [t.prog];
    if t.pioenv != [] {
      parts := parts + [t.pioenv];
    }
    if t.board != [] {
      parts := parts + [t.board];
    }
    parts := parts + [t.version];
  }

  /** `sep.join(parts)`. */
  function Join(parts: seq<string>, sep: string): string
  {
    if parts == [] then []
    else if |parts| == 1 then parts[0]
    else parts[0] + sep + Join(parts[1..], sep)
  }

  /** Joining with `_` safe tokens gives a safe string. */
  lemma {:induction false} JoinSafe(parts: seq<string>)
    requires forall i :: 0 <= i < |parts| ==> Safe(parts[i])
    ensures Safe(Join(parts, "_"))
  {
    if |parts| > 1 {
      JoinSafe(parts[1..]);
      assert Safe(parts[0]);
    }
  }

  /** The joined string is every part plus one separator between each two. */
  lemma {:induction false} JoinLength(parts: seq<string>, sep: string)
    requires parts != []
    ensures |Join(parts, sep)| == SumLengths(parts) + (|parts| - 1) * |sep|
  {
    if |parts| > 1 {
      JoinLength(parts[1..], sep);
    }
  }

  function SumLengths(parts: seq<string>): nat
  {
    if parts == [] then 0 else |parts[0]| + SumLengths(parts[1..])
  }

  /** The parts in the order they are appended: prog, env and board when non-empty, version. */
  function Parts(t: Tokens): seq<string>
  {
    [t.prog] + (if t.pioenv != [] then [t.pioenv] else []) + (if t.board != [] then [t.board] else []) + [t.version]
  }

  /** The new program name: `_`-joined parts. */
  function FirmwareName(t: Tokens): string
  {
    Join(Parts(t), "_")
  }

  lemma JoinCons(first: string, rest: seq<string>, sep: string)
    requires rest != []
    ensures Join([first] + rest, sep) == first + sep + Join(rest, sep)
  {
    assert ([first] + rest)[1..] == rest;
  }

  /** The name written out for each presence of the env and board tokens. */
  lemma FirmwareNameShapes(t: Tokens)
    ensures t.pioenv != [] && t.board != [] ==> FirmwareName(t) == t.prog + "_" + t.pioenv + "_" + t.board + "_" + t.version
    ensures t.pioenv != [] && t.board == [] ==> FirmwareName(t) == t.prog + "_" + t.pioenv + "_" + t.version
    ensures t.pioenv == [] && t.board != [] ==> FirmwareName(t) == t.prog + "_" + t.board + "_" + t.version
    ensures t.pioenv == [] && t.board == [] ==> FirmwareName(t) == t.prog + "_" + t.version
  {
    var v := [t.version];
    if t.pioenv != [] && t.board != [] {
      assert Parts(t) == [t.prog] + ([t.pioenv] + ([t.board] + v));
      JoinCons(t.prog, [t.pioenv] + ([t.board] + v), "_");
      JoinCons(t.pioenv, [t.board] + v, "_");
      JoinCons(t.board, v, "_");
    } else if t.pioenv != [] {
      assert Parts(t) == [t.prog] + ([t.pioenv] + v);
      JoinCons(t.prog, [t.pioenv] + v, "_");
      JoinCons(t.pioenv, v, "_");
    } else if t.board != [] {
      assert Parts(t) == [t.prog] + ([t.board] + v);
      JoinCons(t.prog, [t.board] + v, "_");
      JoinCons(t.board, v, "_");
    } else {
      assert Parts(t) == [t.prog] + v;
      JoinCons(t.prog, v, "_");
    }
  }

  /** The name opens with the prog token and an underscore, and closes with an underscore and
      the version token. */
  lemma FirmwareNameEnds(t: Tokens)
    ensures |FirmwareName(t)| >= |t.prog| + 1 + |t.version|
    ensures FirmwareName(t)[..|t.prog| + 1] == t.prog + "_"
    ensures FirmwareName(t)[|FirmwareName(t)| - |t.version| - 1..] == "_" + t.version
  {
    FirmwareNameShapes(t);
  }

  lemma PartsSafe(t: Tokens)
    requires Safe(t.prog) && Safe(t.pioenv) && Safe(t.board) && Safe(t.version)
    ensures forall i :: 0 <= i < |Parts(t)| ==> Safe(Parts(t)[i])
  {
  }

  /** Built from metadata, the name is filename-safe as a whole. */
  lemma FirmwareNameSafe(vars: BuildVars, configured: Option<string>)
    ensures Safe(FirmwareName(TokensOf(vars, configured)))
  {
    var t := TokensOf(vars, configured);
    PartsSafe(t);
    JoinSafe(Parts(t));
  }

  /** With no configured version and no other metadata the name is `firmware_0.0.0`. */
  lemma DefaultName()
    ensures FirmwareName(TokensOf(NoVars, None)) == DefaultProg + "_" + DefaultVersion
  {
    DefaultTokens();
    FirmwareNameShapes(Tokens(DefaultProg, "", "", DefaultVersion));
  }

  /** The metadata of a build that sets none of the variables. */
  const NoVars: BuildVars := BuildVars(None, "", "", "")

  lemma DefaultTokens()
    ensures TokensOf(NoVars, None) == Tokens(DefaultProg, "", "", DefaultVersion)
  {
    DefaultsKept();
    SanitizeEmpty();
    assert ProgOf(NoVars) == DefaultProg;
    assert PioEnvOf(NoVars) == [];
    assert VersionOf(None) == DefaultVersion;
  }

  lemma DefaultsKept()
    ensures Sanitize(DefaultProg) == DefaultProg && Sanitize(DefaultVersion) == DefaultVersion
  {
    DefaultsSafe();
    SanitizeFixesExactlySafe(DefaultProg);
    SanitizeFixesExactlySafe(DefaultVersion);
  }

  lemma DefaultsSafe()
    ensures Safe(DefaultProg) && Safe(DefaultVersion)
  {
    assert |DefaultProg| == 8 && |DefaultVersion| == 5;
  }

  /** The default is taken before sanitising: a version of only blanks is kept, sanitises to the
      empty token, and leaves the name ending in a bare separator. Reading `platformio.ini` strips
      its values, so such a version only arrives when it is supplied some other way. */
  lemma BlankVersionLeavesBareSeparator()
    ensures VersionOf(Some(" ")) == " " && Sanitize(" ") == ""
    ensures FirmwareName(TokensOf(NoVars, Some(" "))) == DefaultProg + "_"
  {
    BlankVersionTokens();
    FirmwareNameShapes(Tokens(DefaultProg, "", "", ""));
  }

  /** The tokens for a blank version supplied some other way than through `platformio.ini`. */
  lemma BlankVersionTokens()
    ensures VersionOf(Some(" ")) == " " && Sanitize(" ") == ""
    ensures TokensOf(NoVars, Some(" ")) == Tokens(DefaultProg, "", "", "")
  {
    assert LeadingSpaces(" ") == 1;
    assert Strip(" ") == "";
    DefaultsKept();
    SanitizeEmpty();
    assert ProgOf(NoVars) == DefaultProg;
    assert PioEnvOf(NoVars) == [];
  }

  /** The PlatformIO build environment: its `PROGNAME` and the lines the hook prints. */
  class BuildEnv {
    var progName: string
    var log: seq<string>

    constructor (progName: string)
      ensures this.progName == progName && log == []
    {
      this.progName := progName;
      log := [];
    }

    /** The `try` block: `env.Replace(PROGNAME=name)` and the debug line, or, when `Replace`
        raises `failure`, only the debug line with the error; nothing is re-raised. */
    method Apply(name: string, failure: Option<string>)
      modifies this
      ensures failure.None? ==> progName == name && log == old(log) + ["[rename_firmware] set PROGNAME -> " + name]
      ensures failure.Some? ==> progName == old(progName) && log == old(log) + ["[rename_firmware] failed to set PROGNAME: " + failure.value]
    {
      match failure {
        case None =>
          progName := name;
          log := log + ["[rename_firmware] set PROGNAME -> " + progName];
        case Some(e) =>
          log := log + ["[rename_firmware] failed to set PROGNAME: " + e];
      }
    }
  }

  /** The whole hook: read the metadata, build the parts, join them and apply the new name. */
  method Rename(env: BuildEnv, vars: BuildVars, configured: Option<string>, failure: Option<string>)
    returns (newBase: string)
    modifies env
    ensures newBase == FirmwareName(TokensOf(vars, configured)) && Safe(newBase)
    ensures env.progName == if failure.None? then newBase else old(env.progName)
    ensures env.log == old(env.log) + [if failure.None? then "[rename_firmware] set PROGNAME -> " + newBase
                                       else "[rename_firmware] failed to set PROGNAME: " + failure.value]
  {
    var version := VersionOf(configured);
    var pioenv := PioEnvOf(vars);
    var board := vars.boardSubst;
    var prog := ProgOf(vars);
    var t := Tokens(Sanitize(prog), Sanitize(pioenv), Sanitize(board), Sanitize(version));
    var parts := BuildParts(t);
    JoinParts(t, parts);
    newBase := Join(parts, "_");
    FirmwareNameSafe(vars, configured);
    env.Apply(newBase, failure);
  }

  /** What `BuildParts` returns joins to the firmware name. */
  lemma JoinParts(t: Tokens, parts: seq<string>)
    requires |parts| == 2 + (if t.pioenv != [] then 1 else 0) + (if t.board != [] then 1 else 0)
    requires parts[0] == t.prog && parts[|parts| - 1] == t.version
    requires t.pioenv != [] ==> parts[1] == t.pioenv
    requires t.board != [] ==> parts[|parts| - 2] == t.board
    ensures Join(parts, "_") == FirmwareName(t)
  {
    if t.pioenv != [] && t.board != [] {
      assert parts == [t.prog, t.pioenv, t.board, t.version];
    } else if t.pioenv != [] {
      assert parts == [t.prog, t.pioenv, t.version];
    } else if t.board != [] {
      assert parts == [t.prog, t.board, t.version];
    } else {
      assert parts == [t.prog, t.version];
    }
    assert parts == Parts(t);
  }
}
