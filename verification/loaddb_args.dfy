/** The loader's command-line handling: collecting the options into a
    `load_args` record (`get_loaddb_args`), validating the input-file
    arguments (`ldr_validate_object_file`), splitting a `file:line` start
    line off the schema and index file names
    (`ldr_check_file_name_and_line_no`) and choosing between the server and
    the client data file (`load_object_file`). */
module LoaddbArgs {
  import opened CText

  const NoError: int := 0
  const ErFailed: int := -1

  /** The options as the utility's argument map hands them over; an absent
      string option is `None`. */
  datatype ArgMap = ArgMap(
    volume: Option<seq<char>>,
    inputFile: Option<seq<char>>,
    schemaFile: Option<seq<char>>,
    indexFile: Option<seq<char>>,
    objectFile: Option<seq<char>>,
    serverObjectFile: Option<seq<char>>,
    periodicCommit: int)

  /** The part of `load_args` the modelled steps read and write. */
  datatype LoadArgs = LoadArgs(
    volume: seq<char>,
    inputFile: seq<char>,
    schemaFile: seq<char>,
    indexFile: seq<char>,
    objectFile: seq<char>,
    serverObjectFile: seq<char>,
    periodicCommit: int,
    verboseCommit: bool)

  /** An absent string option becomes the empty string. */
  function OrEmpty(o: Option<seq<char>>): (s: seq<char>)
    ensures o.Some? ==> s == o.value
    ensures o.None? ==> s == []
  {
    if o.Some? then o.value else []
  }

  /** `get_loaddb_args`: copies the options, absent ones as empty strings,
      and turns commit messages on exactly when a positive commit period
      is given. */
  function GetLoaddbArgs(m: ArgMap): (a: LoadArgs)
    ensures a.volume == OrEmpty(m.volume) && a.inputFile == OrEmpty(m.inputFile)
    ensures a.schemaFile == OrEmpty(m.schemaFile) && a.indexFile == OrEmpty(m.indexFile)
    ensures a.objectFile == OrEmpty(m.objectFile) && a.serverObjectFile == OrEmpty(m.serverObjectFile)
    ensures a.periodicCommit == m.periodicCommit
    ensures a.verboseCommit <==> m.periodicCommit > 0
  {
    LoadArgs(OrEmpty(m.volume), OrEmpty(m.inputFile), OrEmpty(m.schemaFile), OrEmpty(m.indexFile),
             OrEmpty(m.objectFile), OrEmpty(m.serverObjectFile), m.periodicCommit, m.periodicCommit > 0)
  }

  /** The reasons `ldr_validate_object_file` refuses the arguments. */
  predicate MissingVolume(a: LoadArgs) {
    a.volume == []
  }

  predicate NothingToLoad(a: LoadArgs) {
    a.inputFile == [] && a.objectFile == [] && a.serverObjectFile == []
    && a.schemaFile == [] && a.indexFile == []
  }

  predicate ConflictingInput(a: LoadArgs) {
    a.inputFile != [] && a.objectFile != [] && a.inputFile != a.objectFile
  }

  /** `ldr_validate_object_file`: fails on a missing database name, on no
      file to load at all, and on different input and data files; otherwise
      succeeds, with the data file defaulting to the input file. */
  function ValidateObjectFile(a: LoadArgs): (r: (int, LoadArgs))
    ensures r.0 == NoError || r.0 == ErFailed
    ensures r.0 == ErFailed <==> MissingVolume(a) || NothingToLoad(a) || ConflictingInput(a)
    ensures r.0 == ErFailed ==> r.1 == a
    ensures r.0 == NoError ==>
              r.1 == a.(objectFile := if a.objectFile == [] then a.inputFile else a.objectFile)
  {
    if a.volume == [] then (ErFailed, a)
    else if a.inputFile == [] && a.objectFile == [] && a.serverObjectFile == [] then
      if a.schemaFile == [] && a.indexFile == [] then (ErFailed, a) else (NoError, a)
    else if a.inputFile != [] && a.objectFile != [] && a.inputFile != a.objectFile then (ErFailed, a)
    else if a.objectFile == [] then (NoError, a.(objectFile := a.inputFile))
    else (NoError, a)
  }

  /** Validation is idempotent: arguments it accepted are accepted again
      unchanged. */
  lemma ValidateIdempotent(a: LoadArgs)
    requires ValidateObjectFile(a).0 == NoError
    ensures ValidateObjectFile(ValidateObjectFile(a).1) == (NoError, ValidateObjectFile(a).1)
  {
  }

  /** After a successful validation, an input file given on the command
      line is the data file. */
  lemma ValidatedInputIsObjectFile(a: LoadArgs)
    requires ValidateObjectFile(a).0 == NoError && a.inputFile != []
    ensures ValidateObjectFile(a).1.objectFile == a.inputFile
  {
  }

  /** Position of the first ':' of `s`, if any. */
  function FirstColon(s: seq<char>): (r: Option<nat>)
    ensures r.None? <==> ':' !in s
    ensures r.Some? ==> r.value < |s| && s[r.value] == ':' && ':' !in s[..r.value]
  {
    if |s| == 0 then None
    else if s[0] == ':' then Some(0)
    else
      var r := FirstColon(s[1..]);
      if r.None? then None
      else
        assert s[..r.value + 1] == [s[0]] + s[1..][..r.value];
        Some(r.value + 1)
  }

  /** The `file:line` rule for one file name: when everything after the
      first ':' is decimal digits (possibly none), the name is cut at the
      ':' and the start line becomes the value of the digits (`atoi`, so
      no digits give 0); otherwise name and start line are kept. */
  function SplitStartLine(name: seq<char>, startLine: int): (r: (seq<char>, int))
    ensures r.0 != name ==>
              |r.0| < |name| && r.0 == name[..|r.0|] && name[|r.0|] == ':' && ':' !in r.0
              && AllDigits(name[|r.0| + 1..]) && r.1 == DigitsValue(name[|r.0| + 1..])
    ensures r.0 == name ==>
              r.1 == startLine
              && forall i :: 0 <= i < |name| && name[i] == ':' && ':' !in name[..i] ==> !AllDigits(name[i + 1..])
  {
    var c := FirstColon(name);
    if c.Some? && AllDigits(name[c.value + 1..]) then
      (name[..c.value], DigitsValue(name[c.value + 1..]))
    else (name, startLine)
  }

  /** A name without ':' followed by ":" and a number splits back into the
      name and that number. */
  lemma SplitStartLineRoundTrip(name: seq<char>, n: nat, startLine: int)
    requires ':' !in name
    ensures SplitStartLine(name + ":" + NatToDigits(n), startLine) == (name, n)
  {
    var s := name + ":" + NatToDigits(n);
    assert s[|name|] == ':';
    assert s[..|name|] == name;
    assert ':' !in s[..|name|];
    assert FirstColon(s) == Some(|name|);
    assert s[|name| + 1..] == NatToDigits(n);
    DigitsRoundTrip(n);
  }

  /** A name without ':' is left alone. */
  lemma SplitStartLineNoColon(name: seq<char>, startLine: int)
    requires ':' !in name
    ensures SplitStartLine(name, startLine) == (name, startLine)
  {
  }

  /** The start lines before any `file:line` suffix is read. */
  const DefaultStartLine: int := 1

  /** `ldr_check_file_name_and_line_no`: applies the `file:line` rule to the
      schema file and to the index file, each with its own start line; an
      empty name is left alone.  The file names are the C strings the rest
      of the loader opens, so a cut name is the part before the ':'. */
  function CheckFileNameAndLineNo(a: LoadArgs, schemaStart: int, indexStart: int): (r: (int, LoadArgs, int, int))
    ensures r.0 == 0
    ensures r.1 == a.(schemaFile := r.1.schemaFile, indexFile := r.1.indexFile)
    ensures a.schemaFile == [] ==> r.1.schemaFile == [] && r.2 == schemaStart
    ensures a.schemaFile != [] ==> (r.1.schemaFile, r.2) == SplitStartLine(a.schemaFile, schemaStart)
    ensures a.indexFile == [] ==> r.1.indexFile == [] && r.3 == indexStart
    ensures a.indexFile != [] ==> (r.1.indexFile, r.3) == SplitStartLine(a.indexFile, indexStart)
  {
    var (sf, ss) := if a.schemaFile != [] then SplitStartLine(a.schemaFile, schemaStart) else (a.schemaFile, schemaStart);
    var (xf, xs) := if a.indexFile != [] then SplitStartLine(a.indexFile, indexStart) else (a.indexFile, indexStart);
    (0, a.(schemaFile := sf, indexFile := xf), ss, xs)
  }

  /** The restart hint "-s file:N" the loader prints after a failure is
      read back as the file and line N. */
  lemma RestartHintRoundTrip(a: LoadArgs, file: seq<char>, n: nat)
    requires ':' !in file && file != []
    ensures var r := CheckFileNameAndLineNo(a.(schemaFile := file + ":" + NatToDigits(n)),
                                            DefaultStartLine, DefaultStartLine);
            r.1.schemaFile == file && r.2 == n
  {
    SplitStartLineRoundTrip(file, n, DefaultStartLine);
  }

  /** A file name that itself holds a ':' (a drive letter, say) is not read
      back from its restart hint: the first ':' is the name's own, the text
      after it is not all digits, so the hint is kept whole as the file
      name and the start line stays the default. */
  lemma RestartHintWithColonNotReadBack(a: LoadArgs, file: seq<char>, n: nat)
    requires ':' in file
    ensures var r := CheckFileNameAndLineNo(a.(schemaFile := file + ":" + NatToDigits(n)),
                                            DefaultStartLine, DefaultStartLine);
            r.1.schemaFile == file + ":" + NatToDigits(n) && r.1.schemaFile != file
            && r.2 == DefaultStartLine
  {
    var s := file + ":" + NatToDigits(n);
    var k :| 0 <= k < |file| && file[k] == ':';
    var c := FirstColon(s);
    assert s[k] == ':';
    assert s[c.value + 1..][|file| - c.value - 1] == ':';
  }

  /** Position of the last ':' of `s`, if any. */
  function LastColon(s: seq<char>): (r: Option<nat>)
    ensures r.None? <==> ':' !in s
    ensures r.Some? ==> r.value < |s| && s[r.value] == ':' && ':' !in s[r.value + 1..]
  {
    if |s| == 0 then None
    else if s[|s| - 1] == ':' then Some(|s| - 1)
    else
      var r := LastColon(s[..|s| - 1]);
      if r.None? then None
      else
        assert s[r.value + 1..] == s[..|s| - 1][r.value + 1..] + [s[|s| - 1]];
        r
  }

  /** The `file:line` rule cut at the last ':' rather than the first, so
      that a file name may itself hold ':': the name is cut exactly when
      some ':' is followed by nothing but digits. */
  function SplitAtLastColon(name: seq<char>, startLine: int): (r: (seq<char>, int))
    ensures r.0 != name ==>
              |r.0| < |name| && r.0 == name[..|r.0|] && name[|r.0|] == ':'
              && AllDigits(name[|r.0| + 1..]) && r.1 == DigitsValue(name[|r.0| + 1..])
    ensures r.0 == name ==>
              r.1 == startLine
              && forall i :: 0 <= i < |name| && name[i] == ':' ==> !AllDigits(name[i + 1..])
  {
    var c := LastColon(name);
    if c.Some? && AllDigits(name[c.value + 1..]) then
      (name[..c.value], DigitsValue(name[c.value + 1..]))
    else (name, startLine)
  }

  /** Under the last-':' rule every name, ':' included, splits back out of
      `name:N`. */
  lemma {:induction false} SplitAtLastColonRoundTrip(name: seq<char>, n: nat, startLine: int)
    ensures SplitAtLastColon(name + ":" + NatToDigits(n), startLine) == (name, n)
  {
    var s := name + ":" + NatToDigits(n);
    LastColonBeforeDigits(name, NatToDigits(n));
    assert s[|name| + 1..] == NatToDigits(n);
    assert s[..|name|] == name;
    DigitsRoundTrip(n);
  }

  /** The last ':' of `p:d`, for digits `d`, is the one after `p`. */
  lemma {:induction false} LastColonBeforeDigits(p: seq<char>, d: seq<char>)
    requires AllDigits(d)
    ensures LastColon(p + ":" + d) == Some(|p|)
    decreases |d|
  {
    var s := p + ":" + d;
    if |d| > 0 {
      assert s[|s| - 1] == d[|d| - 1];
      assert s[..|s| - 1] == p + ":" + d[..|d| - 1];
      LastColonBeforeDigits(p, d[..|d| - 1]);
    }
  }

  /** What `loaddb_load_object_file`, the server-side load, reports; its
      code is not part of this model. */
  datatype ServerLoad = ServerLoaded | ServerUnknownFile | ServerFailed(code: int)

  /** Where `load_object_file` ends up: done on the server, one of the two
      server errors returned, or the client-side split of a data file. */
  datatype LoadRoute =
    | LoadedOnServer
    | UnknownOnServer
    | ServerError(code: int)
    | ClientSplit(periodicCommit: int, file: seq<char>)

  /** `load_object_file`: with a server data file, the server is asked
      first (its answer is the parameter `server`); a file the server does
      not know falls back to the client data file when there is one.
      Without a server data file the client data file is split. */
  function LoadObjectFile(a: LoadArgs, server: ServerLoad): (r: LoadRoute)
    ensures a.serverObjectFile == [] ==> r == ClientSplit(a.periodicCommit, a.objectFile)
    ensures a.serverObjectFile != [] ==>
              match server
              case ServerLoaded => r == LoadedOnServer
              case ServerFailed(c) => r == ServerError(c)
              case ServerUnknownFile =>
                if a.objectFile == [] then r == UnknownOnServer
                else r == ClientSplit(a.periodicCommit, a.objectFile)
  {
    if a.serverObjectFile != [] && server.ServerLoaded? then LoadedOnServer
    else if a.serverObjectFile != [] && server.ServerUnknownFile? && a.objectFile == [] then UnknownOnServer
    else if a.serverObjectFile != [] && server.ServerFailed? then ServerError(server.code)
    else ClientSplit(a.periodicCommit, a.objectFile)
  }

  /** "Here we are sure that object_file exists": once validation has
      accepted arguments naming an input, data or server file, the client
      split is never asked to read an empty file name. */
  lemma ClientSplitHasFile(a: LoadArgs, server: ServerLoad)
    requires ValidateObjectFile(a).0 == NoError
    requires a.inputFile != [] || a.objectFile != [] || a.serverObjectFile != []
    ensures var r := LoadObjectFile(ValidateObjectFile(a).1, server);
            r.ClientSplit? ==> r.file != []
  {
  }

  /** Arguments with only a schema or index file pass validation with an
      empty data file name.  The loader still goes on to object loading
      (`ldr_server_load` at load_db.c:705 calls `load_object_file` at
      load_db.c:1010 unconditionally), so `load_object_file` hands that
      empty name to the split, although the comment before the split
      expects an existing file. */
  lemma SchemaOnlyHasNoDataFile(a: LoadArgs, server: ServerLoad)
    requires a.volume != [] && a.schemaFile != []
    requires a.inputFile == [] && a.objectFile == [] && a.serverObjectFile == []
    ensures ValidateObjectFile(a) == (NoError, a)
    ensures LoadObjectFile(a, server) == ClientSplit(a.periodicCommit, [])
  {
  }
}
