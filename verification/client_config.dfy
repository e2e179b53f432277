/** The configuration parsing of the Windows client entry point
    (cmd/client/windows.go): the `-layers` argument, a comma-separated list
    of indices into the layer catalog, and the line-oriented whitelist and
    blacklist files. */
module ClientConfig {
  import opened Results
  import opened Text

  /** Go's uint8, the type of a layer index on the wire. */
  newtype uint8 = x: int | 0 <= x < 256

  /** The three errors parseLayers reports. */
  datatype ParseError =
    | NoLayersSpecified
    | InvalidLayerIndex(part: string)
    | LayerIndexOutOfRange(index: int)

  /** The comma-separated parts of the `-layers` argument. */
  function LayerParts(input: string): seq<string> {
    Split(input, ',')
  }

  /** The integer a part denotes once trimmed, if it is one. */
  function LayerIndex(part: string): Option<int> {
    Atoi(TrimSpace(part))
  }

  /** A part names an existing layer of a catalog of `catalogSize` layers. */
  predicate ValidPart(part: string, catalogSize: nat) {
    LayerIndex(part).Some? && 0 <= LayerIndex(part).value < catalogSize
  }

  /** The error parseLayers reports for a part that is not valid. */
  function PartError(part: string, catalogSize: nat): ParseError
    requires !ValidPart(part, catalogSize)
  {
    match LayerIndex(part)
    case None => InvalidLayerIndex(part)
    case Some(idx) => LayerIndexOutOfRange(idx)
  }

  /** Part `k` is the first part that is not valid, and `e` is its error. */
  predicate FirstInvalidPart(parts: seq<string>, catalogSize: nat, k: nat, e: ParseError) {
    && k < |parts|
    && (forall j :: 0 <= j < k ==> ValidPart(parts[j], catalogSize))
    && !ValidPart(parts[k], catalogSize)
    && e == PartError(parts[k], catalogSize)
  }

  /** parseLayers: one catalog index per comma-separated part, in input
      order; the first part that is not an integer or not a catalog index
      fails the whole call, and so does an empty argument. */
  method ParseLayers(input: string, catalogSize: nat) returns (r: Result<seq<uint8>, ParseError>)
    requires catalogSize <= 256
    ensures input == "" ==> r == Err(NoLayersSpecified)
    ensures r.Ok? <==>
      input != "" && forall i :: 0 <= i < |LayerParts(input)| ==> ValidPart(LayerParts(input)[i], catalogSize)
    ensures r.Ok? ==> |r.value| == |LayerParts(input)|
    ensures r.Ok? ==> forall i :: 0 <= i < |r.value| ==>
      r.value[i] as int == LayerIndex(LayerParts(input)[i]).value && (r.value[i] as int) < catalogSize
    ensures r.Err? && input != "" ==>
      exists k :: FirstInvalidPart(LayerParts(input), catalogSize, k, r.error)
  {
    if input == "" {
      return Err(NoLayersSpecified);
    }
    var parts := LayerParts(input);
    r := ParseParts(parts, catalogSize);
  }

  /** The loop of parseLayers over the parts: each trimmed part read with
      strconv.Atoi and checked against the catalog, stopping at the first
      failure. */
  method ParseParts(parts: seq<string>, catalogSize: nat) returns (r: Result<seq<uint8>, ParseError>)
    requires catalogSize <= 256
    ensures r.Ok? <==> forall i :: 0 <= i < |parts| ==> ValidPart(parts[i], catalogSize)
    ensures r.Ok? ==> |r.value| == |parts|
    ensures r.Ok? ==> forall i :: 0 <= i < |r.value| ==>
      r.value[i] as int == LayerIndex(parts[i]).value && (r.value[i] as int) < catalogSize
    ensures r.Err? ==> exists k :: FirstInvalidPart(parts, catalogSize, k, r.error)
  {
    var result: seq<uint8> := [];
    var i := 0;
    while i < |parts|
      invariant 0 <= i <= |parts|
      invariant |result| == i
      invariant forall j :: 0 <= j < i ==>
        ValidPart(parts[j], catalogSize) && result[j] as int == LayerIndex(parts[j]).value
    {
      var v := ReadPart(parts[i], catalogSize);
      if v.Err? {
        FirstInvalidAt(parts, catalogSize, i);
        return Err(v.error);
      }
      DecodedStep(parts, catalogSize, result, v.value);
      result := result + [v.value];
      i := i + 1;
    }
    return Ok(result);
  }

  /** Reading one more valid part extends the indices read so far. */
  lemma DecodedStep(parts: seq<string>, catalogSize: nat, values: seq<uint8>, v: uint8)
    requires |values| < |parts|
    requires forall j :: 0 <= j < |values| ==>
      ValidPart(parts[j], catalogSize) && values[j] as int == LayerIndex(parts[j]).value
    requires ValidPart(parts[|values|], catalogSize) && v as int == LayerIndex(parts[|values|]).value
    ensures forall j :: 0 <= j < |values| + 1 ==>
      ValidPart(parts[j], catalogSize) && (values + [v])[j] as int == LayerIndex(parts[j]).value
  {
  }

  /** One iteration of the parseLayers loop: the trimmed part read with
      strconv.Atoi, then checked against the catalog size. */
  method ReadPart(part: string, catalogSize: nat) returns (r: Result<uint8, ParseError>)
    requires catalogSize <= 256
    ensures r.Ok? <==> ValidPart(part, catalogSize)
    ensures r.Ok? ==> r.value as int == LayerIndex(part).value
    ensures r.Err? ==> !ValidPart(part, catalogSize) && r.error == PartError(part, catalogSize)
  {
    var idx := LayerIndex(part);
    if idx.None? {
      return Err(InvalidLayerIndex(part));
    }
    if idx.value < 0 || idx.value >= catalogSize {
      return Err(LayerIndexOutOfRange(idx.value));
    }
    return Ok(idx.value as uint8);
  }

  /** A part that is not valid after valid ones is the first invalid part. */
  lemma FirstInvalidAt(parts: seq<string>, catalogSize: nat, i: nat)
    requires i < |parts| && !ValidPart(parts[i], catalogSize)
    requires forall j :: 0 <= j < i ==> ValidPart(parts[j], catalogSize)
    ensures exists k :: FirstInvalidPart(parts, catalogSize, k, PartError(parts[i], catalogSize))
  {
    assert FirstInvalidPart(parts, catalogSize, i, PartError(parts[i], catalogSize));
  }

  /** "1,,2" fails on its empty middle part, and so does any text that is
      not an integer once trimmed. */
  lemma EmptyPartIsInvalid(catalogSize: nat)
    ensures LayerParts("1,,2") == ["1", "", "2"]
    ensures !ValidPart("", catalogSize) && PartError("", catalogSize) == InvalidLayerIndex("")
  {
    SplitJoin(["1", "", "2"], ',');
    assert Join(["1", "", "2"], ',') == "1,,2";
  }

  /** A list-file line that is kept: non-empty and not a `#` or `//` comment. */
  predicate IsEntry(line: string) {
    line != "" && !HasPrefix(line, "#") && !HasPrefix(line, "//")
  }

  /** What one line contributes: itself trimmed if that is an entry. */
  function Kept(line: string): seq<string> {
    if IsEntry(TrimSpace(line)) then [TrimSpace(line)] else []
  }

  /** The entries of a list file, given its lines: each line trimmed, then
      kept when it is an entry, in line order. */
  function Entries(lines: seq<string>): seq<string> {
    if lines == [] then [] else Entries(lines[..|lines| - 1]) + Kept(lines[|lines| - 1])
  }

  /** The part of loadListFile that reads the file contents: split into
      lines at '\n', then filter the lines. */
  method ParseListFile(contents: string) returns (entries: seq<string>)
    ensures entries == Entries(Split(contents, '\n'))
  {
    var lines := Split(contents, '\n');
    entries := FilterLines(lines);
  }

  /** The loop of loadListFile: trim each line, skip it when blank or a
      `#` or `//` comment, and append it otherwise. */
  method FilterLines(lines: seq<string>) returns (entries: seq<string>)
    ensures entries == Entries(lines)
  {
    entries := [];
    var i := 0;
    while i < |lines|
      invariant 0 <= i <= |lines|
      invariant entries == Entries(lines[..i])
    {
      var line := TrimSpace(lines[i]);
      EntriesStep(lines, i);
      if line != "" && !HasPrefix(line, "#") && !HasPrefix(line, "//") {
        entries := entries + [line];
      }
      i := i + 1;
    }
    assert lines[..i] == lines;
  }

  /** A kept entry: trimmed, non-empty and not a comment. */
  predicate Clean(entry: string) {
    IsEntry(entry) && TrimSpace(entry) == entry
  }

  /** What one line contributes is clean. */
  lemma KeptIsClean(line: string)
    ensures forall e :: e in Kept(line) ==> Clean(e)
  {
    TrimSpaceIdempotent(line);
  }

  /** The entries of one more line are those before plus what it keeps. */
  lemma EntriesStep(lines: seq<string>, i: nat)
    requires i < |lines|
    ensures Entries(lines[..i + 1]) == Entries(lines[..i]) + Kept(lines[i])
  {
    assert lines[..i + 1][..i] == lines[..i];
  }

  /** Every entry is trimmed, non-empty and not a comment. */
  lemma {:induction false} EntriesAreClean(lines: seq<string>)
    ensures forall e :: e in Entries(lines) ==> Clean(e)
  {
    if lines != [] {
      var init, last := lines[..|lines| - 1], lines[|lines| - 1];
      EntriesAreClean(init);
      KeptIsClean(last);
    }
  }

  /** There are at most as many entries as lines. */
  lemma {:induction false} EntriesBounded(lines: seq<string>)
    ensures |Entries(lines)| <= |lines|
  {
    if lines != [] {
      EntriesBounded(lines[..|lines| - 1]);
    }
  }

  /** Every line that passes once trimmed shows up among the entries. */
  lemma {:induction false} EntriesComplete(lines: seq<string>)
    ensures forall line :: line in lines && IsEntry(TrimSpace(line)) ==> TrimSpace(line) in Entries(lines)
  {
    if lines != [] {
      var init, last := lines[..|lines| - 1], lines[|lines| - 1];
      EntriesComplete(init);
      assert lines == init + [last];
    }
  }

  /** Every entry is some line of the file that passes once trimmed. */
  lemma {:induction false} EntriesSound(lines: seq<string>)
    ensures forall e :: e in Entries(lines) ==>
      exists line :: line in lines && IsEntry(TrimSpace(line)) && e == TrimSpace(line)
  {
    if lines != [] {
      var init, last := lines[..|lines| - 1], lines[|lines| - 1];
      EntriesSound(init);
      assert lines == init + [last];
      forall e | e in Entries(lines)
        ensures exists line :: line in lines && IsEntry(TrimSpace(line)) && e == TrimSpace(line)
      {
        if e in Entries(init) {
          var line :| line in init && IsEntry(TrimSpace(line)) && e == TrimSpace(line);
          assert line in lines;
        } else {
          assert last in lines;
        }
      }
    }
  }

  /** Lines that are all blank or comments contribute no entries. */
  lemma {:induction false} CommentLinesHaveNoEntries(lines: seq<string>)
    requires forall k :: 0 <= k < |lines| ==> !IsEntry(TrimSpace(lines[k]))
    ensures Entries(lines) == []
  {
    if lines != [] {
      CommentLinesHaveNoEntries(lines[..|lines| - 1]);
    }
  }
}

/** The files the Windows client writes when a whitelist or blacklist file
    is missing (cmd/client/windows.go, the calls of loadListFile), and why
    they yield empty lists. */
module ListDefaults {
  import opened Text
  import opened ClientConfig

  /** The comment lines of the default list files. Each text is written as
      a concatenation of pieces so that CommentLineOfPieces can reason about
      a short head and tail instead of one long literal. */
  function WhitelistHint1(): string { "# Place IPs line by line " + "to exclude them from routing." }
  function WhitelistHint2(): string { "# Don't enter IP addresses " + "if you want to route " + "all system traffic." }
  function BlacklistHint(): string { "# Place IPs line by line " + "to include them to routing." }

  /** The contents written for a missing whitelist file. */
  function DefaultWhitelist(): string { WhitelistHint1() + "\n" + WhitelistHint2() + "\n\n" }

  /** The contents written for a missing blacklist file. */
  function DefaultBlacklist(): string { BlacklistHint() + "\n\n" }

  /** A comment line: one line, no surrounding white space, starting with `#`. */
  predicate IsCommentLine(line: string) {
    '\n' !in line && TrimSpace(line) == line && HasPrefix(line, "#")
  }

  /** A line without newlines that starts with `#` and ends in a visible
      character is a comment line. */
  lemma CommentLineIntro(line: string)
    requires |line| > 0 && line[0] == '#' && !IsSpace(line[|line| - 1]) && '\n' !in line
    ensures IsCommentLine(line)
  {
    TrimmedLine(line);
    HasPrefixFirst(line, '#');
  }

  lemma TrimmedLine(line: string)
    requires |line| > 0 && line[0] == '#' && !IsSpace(line[|line| - 1])
    ensures TrimSpace(line) == line
  {
    TrimSpaceNoEdgeSpace(line);
  }

  /** A comment line given as two pieces. */
  lemma CommentLineOfPieces(head: string, tail: string)
    requires |head| > 0 && head[0] == '#' && '\n' !in head
    requires |tail| > 0 && !IsSpace(tail[|tail| - 1]) && '\n' !in tail
    ensures IsCommentLine(head + tail)
  {
    var line := head + tail;
    assert line[0] == '#' && line[|line| - 1] == tail[|tail| - 1];
    CommentLineIntro(line);
  }

  lemma WhitelistHint1IsComment()
    ensures IsCommentLine(WhitelistHint1())
  {
    CommentLineOfPieces("# Place IPs line by line ", "to exclude them from routing.");
  }

  lemma WhitelistHint2IsComment()
    ensures IsCommentLine(WhitelistHint2())
  {
    CommentLineOfPieces("# Don't enter IP addresses " + "if you want to route ", "all system traffic.");
  }

  lemma BlacklistHintIsComment()
    ensures IsCommentLine(BlacklistHint())
  {
    CommentLineOfPieces("# Place IPs line by line ", "to include them to routing.");
  }

  /** Each line of the default list files is a single trimmed comment. */
  lemma HintsAreCommentLines()
    ensures IsCommentLine(WhitelistHint1()) && IsCommentLine(WhitelistHint2()) && IsCommentLine(BlacklistHint())
  {
    WhitelistHint1IsComment();
    WhitelistHint2IsComment();
    BlacklistHintIsComment();
  }

  /** A file whose lines are comment lines or blank has no entries. */
  lemma CommentFileHasNoEntries(lines: seq<string>)
    requires |lines| >= 1
    requires forall k :: 0 <= k < |lines| ==> IsCommentLine(lines[k]) || lines[k] == ""
    ensures Entries(Split(Join(lines, '\n'), '\n')) == []
  {
    SplitJoin(lines, '\n');
    CommentLinesHaveNoEntries(lines);
  }

  /** The default whitelist holds only comments and blank lines, so it
      yields an empty list. */
  lemma DefaultWhitelistIsEmpty()
    ensures Entries(Split(DefaultWhitelist(), '\n')) == []
  {
    var lines := [WhitelistHint1(), WhitelistHint2(), "", ""];
    HintsAreCommentLines();
    assert lines[1..] == [WhitelistHint2(), "", ""];
    JoinBlankTail(WhitelistHint2());
    assert Join(lines, '\n') == WhitelistHint1() + "\n" + (WhitelistHint2() + "\n\n");
    assert Join(lines, '\n') == DefaultWhitelist();
    CommentFileHasNoEntries(lines);
  }

  /** The default blacklist holds only a comment and blank lines, so it
      yields an empty list. */
  lemma DefaultBlacklistIsEmpty()
    ensures Entries(Split(DefaultBlacklist(), '\n')) == []
  {
    HintsAreCommentLines();
    JoinBlankTail(BlacklistHint());
    CommentFileHasNoEntries([BlacklistHint(), "", ""]);
  }

  /** A line followed by two empty lines is the line and two newlines. */
  lemma JoinBlankTail(line: string)
    ensures Join([line, "", ""], '\n') == line + "\n\n"
  {
    assert [line, "", ""][1..] == ["", ""];
    assert Join(["", ""], '\n') == "\n";
  }
}
