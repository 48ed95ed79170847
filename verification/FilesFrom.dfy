/** The `--files-from` reader (`read_files_from_reader_named` in src/cli.rs): entries separated by
    newlines or NULs, comments dropped, and each path normalized to one spelling. */
module FilesFrom {
  import opened ByteStrings

  const NUL: u8 := 0
  const HASH: u8 := 35
  const SEMICOLON: u8 := 59
  const DOT: u8 := 46

  const HERE: bytes := [DOT]
  const PARENT: bytes := [DOT, DOT]

  datatype Refusal = HasNul(item: bytes) | HasParent(item: bytes) | NamesRoot(item: bytes)

  function Separator(nul: bool): u8 { if nul then NUL else NEWLINE }

  // ----- One entry ----------------------------------------------------------------------

  /** An entry without the carriage return that may end a line. */
  function Cleaned(item: bytes, nul: bool): bytes
  {
    if !nul && item != [] && item[|item| - 1] == RETURN then item[..|item| - 1] else item
  }

  predicate Ignored(item: bytes) { item == [] || item[0] == HASH || item[0] == SEMICOLON }

  predicate Stays(part: bytes) { part != [] && part != HERE }

  /** The components that stay. */
  function Kept(parts: seq<bytes>): seq<bytes>
  {
    if parts == [] then []
    else if Stays(parts[|parts| - 1]) then Kept(parts[..|parts| - 1]) + [parts[|parts| - 1]]
    else Kept(parts[..|parts| - 1])
  }

  function Components(item: bytes): seq<bytes> { Kept(Split(item, SLASH)) }

  function Normalized(item: bytes): Result<bytes, Refusal>
  {
    if NUL in item then Err(HasNul(item))
    else if PARENT in Split(item, SLASH) then Err(HasParent(item))
    else if Components(item) == [] then Err(NamesRoot(item))
    else Ok(Join(Components(item), SLASH))
  }

  /** What an entry adds to the list. */
  function Added(item: bytes): Result<seq<bytes>, Refusal>
  {
    if Ignored(item) then Ok([])
    else match Normalized(item)
      case Err(refusal) => Err(refusal)
      case Ok(path) => Ok([path])
  }

  function Then(first: Result<seq<bytes>, Refusal>, second: Result<seq<bytes>, Refusal>): Result<seq<bytes>, Refusal>
  {
    match first
    case Err(refusal) => Err(refusal)
    case Ok(paths) => if second.Ok? then Ok(paths + second.value) else second
  }

  /** The whole list; the first refused entry refuses it. */
  function Paths(items: seq<bytes>, nul: bool): Result<seq<bytes>, Refusal>
  {
    if items == [] then Ok([]) else Then(Paths(items[..|items| - 1], nul), Added(Cleaned(items[|items| - 1], nul)))
  }

  function ReadList(input: bytes, nul: bool): Result<seq<bytes>, Refusal>
  {
    Paths(Split(input, Separator(nul)), nul)
  }

  // ----- The reader ---------------------------------------------------------------------

  lemma KeptMore(parts: seq<bytes>, i: nat)
    requires i < |parts|
    ensures Kept(parts[..i + 1]) == if Stays(parts[i]) then Kept(parts[..i]) + [parts[i]] else Kept(parts[..i])
  {
    assert parts[..i + 1][..i] == parts[..i];
  }

  lemma {:induction false} KeptAreKept(parts: seq<bytes>)
    ensures forall i | 0 <= i < |Kept(parts)| :: Stays(Kept(parts)[i]) && Kept(parts)[i] in parts
  {
    if parts != [] { KeptAreKept(parts[..|parts| - 1]); }
  }

  lemma JoinMore(parts: seq<bytes>, part: bytes)
    requires forall i | 0 <= i < |parts| :: Stays(parts[i])
    ensures Join(parts + [part], SLASH) ==
            (if Join(parts, SLASH) == [] then [] else Join(parts, SLASH) + [SLASH]) + part
    ensures Join(parts, SLASH) == [] <==> parts == []
  {
    if parts == [] {
      assert parts + [part] == [part];
    } else {
      JoinAcross(parts, [part], SLASH);
      assert Join([part], SLASH) == part;
    }
  }

  /** The loop over one entry's components. */
  method NormalizeItem(item: bytes) returns (r: Result<bytes, Refusal>)
    ensures r == Normalized(item)
  {
    if NUL in item { return Err(HasNul(item)); }
    var parts := Split(item, SLASH);
    var normalized: bytes := [];
    for i := 0 to |parts|
      invariant PARENT !in parts[..i]
      invariant normalized == Join(Kept(parts[..i]), SLASH)
    {
      var component := parts[i];
      if component == PARENT { return Err(HasParent(item)); }
      KeptMore(parts, i);
      assert parts[..i + 1] == parts[..i] + [component];
      if !Stays(component) { continue; }
      KeptAreKept(parts[..i]);
      JoinMore(Kept(parts[..i]), component);
      if normalized != [] { normalized := normalized + [SLASH]; }
      normalized := normalized + component;
    }
    assert parts[..|parts|] == parts;
    KeptAreKept(parts);
    JoinMore(Kept(parts), []);
    if normalized == [] { return Err(NamesRoot(item)); }
    return Ok(normalized);
  }

  /** `read_until`: how much of the input the next entry takes, with its separator. */
  function Taken(input: bytes, separator: u8): (n: nat)
    requires input != []
    ensures 0 < n <= |input| && separator !in input[..n - 1]
    ensures n < |input| ==> input[n - 1] == separator
  {
    if input[0] == separator || |input| == 1 then 1
    else
      var n := Taken(input[1..], separator);
      assert input[..n] == [input[0]] + input[1..][..n - 1];
      n + 1
  }

  lemma ThenInTurn(a: Result<seq<bytes>, Refusal>, b: Result<seq<bytes>, Refusal>, c: Result<seq<bytes>, Refusal>)
    ensures Then(Then(a, b), c) == Then(a, Then(b, c))
    ensures Then(Ok([]), a) == a && Then(a, Ok([])) == a
  {
    if a.Ok? {
      assert [] + a.value == a.value && a.value + [] == a.value;
      if b.Ok? && c.Ok? { assert a.value + b.value + c.value == a.value + (b.value + c.value); }
    }
  }

  lemma {:induction false} PathsAcross(items: seq<bytes>, more: seq<bytes>, nul: bool)
    ensures Paths(items + more, nul) == Then(Paths(items, nul), Paths(more, nul))
    decreases |more|
  {
    var all := items + more;
    if more == [] {
      assert all == items;
      ThenInTurn(Paths(items, nul), Ok([]), Ok([]));
    } else {
      assert all[..|all| - 1] == items + more[..|more| - 1];
      PathsAcross(items, more[..|more| - 1], nul);
      ThenInTurn(Paths(items, nul), Paths(more[..|more| - 1], nul), Added(Cleaned(more[|more| - 1], nul)));
    }
  }

  lemma PathsOfOne(item: bytes, nul: bool)
    ensures Paths([item], nul) == Added(Cleaned(item, nul))
  {
    assert [item][..|[item]| - 1] == [];
    ThenInTurn(Added(Cleaned(item, nul)), Ok([]), Ok([]));
  }

  lemma ReadNothing(nul: bool)
    ensures ReadList([], nul) == Ok([])
  {
    PathsOfOne([], nul);
  }

  function Piece(taken: bytes, separator: u8): bytes
  {
    if taken != [] && taken[|taken| - 1] == separator then taken[..|taken| - 1] else taken
  }

  lemma ReadOne(entry: bytes, nul: bool)
    requires Separator(nul) !in entry
    ensures ReadList(entry, nul) == Added(Cleaned(entry, nul))
  {
    SplitWithout(entry, Separator(nul));
    PathsOfOne(entry, nul);
  }

  /** Reading two lists one after the other. */
  lemma ReadInTurn(first: bytes, second: bytes, nul: bool)
    ensures ReadList(first + [Separator(nul)] + second, nul) == Then(ReadList(first, nul), ReadList(second, nul))
  {
    SplitAcross(first, Separator(nul), second);
    PathsAcross(Split(first, Separator(nul)), Split(second, Separator(nul)), nul);
  }

  lemma ReadUntilSeparator(item: bytes, rest: bytes, nul: bool)
    requires Separator(nul) !in item
    ensures ReadList(item + [Separator(nul)] + rest, nul) == Then(Added(Cleaned(item, nul)), ReadList(rest, nul))
  {
    ReadInTurn(item, rest, nul);
    ReadOne(item, nul);
  }

  lemma TakenSplits(input: bytes, separator: u8)
    requires input != []
    ensures var n := Taken(input, separator);
            var piece := Piece(input[..n], separator);
            && separator !in piece
            && (if input[n - 1] == separator then input == piece + [separator] + input[n..]
                else input == piece && input[n..] == [])
  {
    var n := Taken(input, separator);
    assert input[..n] == input[..n - 1] + [input[n - 1]];
    if input[n - 1] == separator {
      assert Piece(input[..n], separator) == input[..n - 1];
      assert input == input[..n] + input[n..];
    } else {
      assert input[..n] == input;
    }
  }

  /** The next entry's part of the result comes before that of the rest. */
  lemma ReadTaken(input: bytes, nul: bool)
    requires input != []
    ensures var n := Taken(input, Separator(nul));
            ReadList(input, nul) ==
            Then(Added(Cleaned(Piece(input[..n], Separator(nul)), nul)), ReadList(input[n..], nul))
  {
    var n := Taken(input, Separator(nul));
    var item, rest := Piece(input[..n], Separator(nul)), input[n..];
    TakenSplits(input, Separator(nul));
    if input[n - 1] == Separator(nul) {
      ReadUntilSeparator(item, rest, nul);
    } else {
      ReadOne(item, nul);
      ReadNothing(nul);
      ThenInTurn(Added(Cleaned(item, nul)), Ok([]), Ok([]));
    }
  }

  /** The next entry, without its separator and carriage return, and what follows it. */
  method NextItem(input: bytes, nul: bool) returns (item: bytes, rest: bytes)
    requires input != []
    ensures var n := Taken(input, Separator(nul));
            item == Cleaned(Piece(input[..n], Separator(nul)), nul) && rest == input[n..]
  {
    var n := Taken(input, Separator(nul));
    item := input[..n];
    rest := input[n..];
    if item[|item| - 1] == Separator(nul) { item := item[..|item| - 1]; }
    if !nul && item != [] && item[|item| - 1] == RETURN { item := item[..|item| - 1]; }
  }

  lemma OutGrows(out: seq<bytes>, added: Result<seq<bytes>, Refusal>, rest: Result<seq<bytes>, Refusal>)
    ensures Then(Ok(out), Then(added, rest)) ==
            if added.Err? then Err(added.error)
            else if added.value == [] then Then(Ok(out), rest) else Then(Ok(out + added.value), rest)
  {
    ThenInTurn(Ok(out), added, rest);
    ThenInTurn(rest, Ok([]), Ok([]));
  }

  method ReadFilesFrom(input: bytes, nul: bool) returns (r: Result<seq<bytes>, Refusal>)
    ensures r == ReadList(input, nul)
  {
    var out: seq<bytes> := [];
    var rest := input;
    ThenInTurn(ReadList(input, nul), Ok([]), Ok([]));
    while rest != []
      invariant ReadList(input, nul) == Then(Ok(out), ReadList(rest, nul))
      decreases |rest|
    {
      var item;
      ReadTaken(rest, nul);
      item, rest := NextItem(rest, nul);
      OutGrows(out, Added(item), ReadList(rest, nul));
      if item == [] || item[0] == HASH || item[0] == SEMICOLON { continue; }
      var path := NormalizeItem(item);
      if path.Err? { return Err(path.error); }
      out := out + [path.value];
    }
    ReadNothing(nul);
    ThenInTurn(Ok(out), Ok([]), Ok([]));
    return Ok(out);
  }

  // ----- What is returned ---------------------------------------------------------------

  /** One spelling of a relative path that stays below where it starts. */
  predicate Clean(path: bytes)
  {
    && path != [] && NUL !in path
    && forall i | 0 <= i < |Split(path, SLASH)| :: Stays(Split(path, SLASH)[i]) && Split(path, SLASH)[i] != PARENT
  }

  lemma {:induction false} JoinHolds(parts: seq<bytes>, b: u8)
    requires b in Join(parts, SLASH)
    ensures b == SLASH || exists i :: 0 <= i < |parts| && b in parts[i]
  {
    if |parts| > 1 && b !in parts[0] && b != SLASH {
      JoinHolds(parts[1..], b);
      var i :| 0 <= i < |parts[1..]| && b in parts[1..][i];
      assert b in parts[i + 1];
    }
  }

  lemma {:induction false} SplitHolds(item: bytes, b: u8, i: nat)
    requires i < |Split(item, SLASH)| && b in Split(item, SLASH)[i]
    ensures b in item
  {
    if item != [] {
      var rest := Split(item[1..], SLASH);
      if item[0] == SLASH {
        if i > 0 { SplitHolds(item[1..], b, i - 1); }
      } else if i > 0 || b != item[0] {
        SplitHolds(item[1..], b, i);
      }
    }
  }

  lemma NormalizedParts(item: bytes)
    requires Normalized(item).Ok?
    ensures Split(Normalized(item).value, SLASH) == Components(item)
  {
    KeptAreKept(Split(item, SLASH));
    SplitJoin(Components(item), SLASH);
  }

  lemma NormalizedIsClean(item: bytes)
    requires Normalized(item).Ok?
    ensures Clean(Normalized(item).value)
  {
    NormalizedParts(item);
    KeptAreKept(Split(item, SLASH));
    var path := Normalized(item).value;
    JoinMore(Components(item), []);
    if NUL in path {
      JoinHolds(Components(item), NUL);
      var i :| 0 <= i < |Components(item)| && NUL in Components(item)[i];
      var k :| 0 <= k < |Split(item, SLASH)| && Split(item, SLASH)[k] == Components(item)[i];
      SplitHolds(item, NUL, k);
    }
  }

  /** Two accepted entries give the same path exactly when they have the same components. */
  lemma OneSpelling(a: bytes, b: bytes)
    requires Normalized(a).Ok? && Normalized(b).Ok?
    ensures Normalized(a) == Normalized(b) <==> Components(a) == Components(b)
  {
    NormalizedParts(a);
    NormalizedParts(b);
  }

  lemma {:induction false} PathsAreClean(items: seq<bytes>, nul: bool)
    requires Paths(items, nul).Ok?
    ensures forall i | 0 <= i < |Paths(items, nul).value| :: Clean(Paths(items, nul).value[i])
  {
    if items != [] {
      PathsAreClean(items[..|items| - 1], nul);
      var item := Cleaned(items[|items| - 1], nul);
      if !Ignored(item) { NormalizedIsClean(item); }
    }
  }

  /** Every path returned is nonempty, without NUL and without an empty, `.` or `..` component. */
  lemma ReturnedPathsAreClean(input: bytes, nul: bool)
    requires ReadList(input, nul).Ok?
    ensures forall i | 0 <= i < |ReadList(input, nul).value| :: Clean(ReadList(input, nul).value[i])
  {
    PathsAreClean(Split(input, Separator(nul)), nul);
  }

  // ----- Writing a list and reading it again --------------------------------------------

  function Dotted(path: bytes): bytes { [DOT, SLASH] + path }

  /** `./path` and the separator, for each path. */
  function Written(paths: seq<bytes>, separator: u8): bytes
  {
    if paths == [] then [] else Dotted(paths[0]) + [separator] + Written(paths[1..], separator)
  }

  lemma {:induction false} KeptAcross(a: seq<bytes>, b: seq<bytes>)
    ensures Kept(a + b) == Kept(a) + Kept(b)
    decreases |b|
  {
    var all := a + b;
    if b == [] {
      assert all == a;
    } else {
      assert all[..|all| - 1] == a + b[..|b| - 1];
      KeptAcross(a, b[..|b| - 1]);
    }
  }

  lemma {:induction false} KeptAll(parts: seq<bytes>)
    requires forall i | 0 <= i < |parts| :: Stays(parts[i])
    ensures Kept(parts) == parts
  {
    if parts != [] {
      assert parts == parts[..|parts| - 1] + [parts[|parts| - 1]];
      KeptAll(parts[..|parts| - 1]);
    }
  }

  lemma DottedSplits(path: bytes)
    ensures Split(Dotted(path), SLASH) == [HERE] + Split(path, SLASH)
    ensures Components(Dotted(path)) == Components(path)
  {
    assert Dotted(path) == HERE + [SLASH] + path;
    SplitAcross(HERE, SLASH, path);
    SplitWithout(HERE, SLASH);
    KeptAcross([HERE], Split(path, SLASH));
    assert [HERE][..|[HERE]| - 1] == [];
    assert Kept([HERE]) == [];
  }

  lemma DottedIsAllowed(path: bytes)
    requires Clean(path)
    ensures NUL !in Dotted(path) && PARENT !in Split(Dotted(path), SLASH)
  {
    DottedSplits(path);
  }

  lemma DottedReads(path: bytes)
    requires Clean(path)
    ensures Normalized(Dotted(path)) == Ok(path)
  {
    DottedIsAllowed(path);
    DottedSplits(path);
    KeptAll(Split(path, SLASH));
    JoinSplit(path, SLASH);
  }

  lemma WrittenReads(paths: seq<bytes>, nul: bool)
    requires paths != []
    ensures ReadList(Written(paths, Separator(nul)), nul) ==
            Then(ReadList(Dotted(paths[0]), nul), ReadList(Written(paths[1..], Separator(nul)), nul))
  {
    ReadInTurn(Dotted(paths[0]), Written(paths[1..], Separator(nul)), nul);
  }

  lemma DottedReadsAsOne(path: bytes, nul: bool)
    requires Clean(path) && Separator(nul) !in path && (nul || path[|path| - 1] != RETURN)
    ensures ReadList(Dotted(path), nul) == Ok([path])
  {
    assert Separator(nul) !in Dotted(path);
    ReadOne(Dotted(path), nul);
    DottedReads(path);
  }

  /** Writing clean paths with NULs and reading them again gives the same list. */
  lemma {:induction false} NulListReadsBack(paths: seq<bytes>)
    requires forall i | 0 <= i < |paths| :: Clean(paths[i])
    ensures ReadList(Written(paths, NUL), true) == Ok(paths)
  {
    if paths == [] {
      ReadNothing(true);
    } else {
      assert paths == [paths[0]] + paths[1..];
      NulListReadsBack(paths[1..]);
      WrittenReads(paths, true);
      DottedReadsAsOne(paths[0], true);
    }
  }

  /** So whatever list was read, in either mode, survives being written and read. */
  lemma ReadWriteRead(input: bytes, nul: bool)
    requires ReadList(input, nul).Ok?
    ensures ReadList(Written(ReadList(input, nul).value, NUL), true) == ReadList(input, nul)
  {
    ReturnedPathsAreClean(input, nul);
    NulListReadsBack(ReadList(input, nul).value);
  }

  // ----- Line by line -------------------------------------------------------------------

  predicate FitsALine(path: bytes)
  {
    NEWLINE !in path && (path == [] || path[|path| - 1] != RETURN)
  }

  lemma JoinSnoc(front: seq<bytes>, last: bytes)
    ensures |Join(front + [last], SLASH)| == (if front == [] then 0 else |Join(front, SLASH)| + 1) + |last|
  {
    if front == [] {
      assert front + [last] == [last];
    } else {
      JoinAcross(front, [last], SLASH);
    }
  }

  lemma {:induction false} KeptIsShorter(parts: seq<bytes>)
    ensures |Join(Kept(parts), SLASH)| <= |Join(parts, SLASH)|
  {
    if parts != [] {
      var front, last := parts[..|parts| - 1], parts[|parts| - 1];
      assert parts == front + [last];
      KeptIsShorter(front);
      JoinSnoc(front, last);
      JoinSnoc(Kept(front), last);
    }
  }

  lemma NormalizedHolds(item: bytes, b: u8)
    requires Normalized(item).Ok? && b in Normalized(item).value && b != SLASH
    ensures b in item
  {
    JoinHolds(Components(item), b);
    KeptAreKept(Split(item, SLASH));
    var i :| 0 <= i < |Components(item)| && b in Components(item)[i];
    var k :| 0 <= k < |Split(item, SLASH)| && Split(item, SLASH)[k] == Components(item)[i];
    SplitHolds(item, b, k);
  }

  lemma {:induction false} PathsWithout(items: seq<bytes>)
    requires Paths(items, false).Ok? && forall i | 0 <= i < |items| :: NEWLINE !in items[i]
    ensures forall i | 0 <= i < |Paths(items, false).value| :: NEWLINE !in Paths(items, false).value[i]
  {
    if items != [] {
      PathsWithout(items[..|items| - 1]);
      var item := Cleaned(items[|items| - 1], false);
      if !Ignored(item) && NEWLINE in Normalized(item).value { NormalizedHolds(item, NEWLINE); }
    }
  }

  lemma NormalizedIsShorter(path: bytes)
    ensures Normalized(Dotted(path)).Ok? ==> |Normalized(Dotted(path)).value| <= |path|
  {
    DottedSplits(path);
    KeptIsShorter(Split(path, SLASH));
    JoinSplit(path, SLASH);
  }

  /** A path that ends in a carriage return comes back shorter, or not at all. */
  lemma ReturnIsLost(path: bytes)
    requires Clean(path) && NEWLINE !in path && path[|path| - 1] == RETURN
    ensures ReadList(Dotted(path), false) != Ok([path])
    ensures ReadList(Dotted(path), false).Ok? ==> |ReadList(Dotted(path), false).value| == 1
  {
    var short := path[..|path| - 1];
    assert NEWLINE !in Dotted(path);
    ReadOne(Dotted(path), false);
    assert Cleaned(Dotted(path), false) == Dotted(short);
    NormalizedIsShorter(short);
    DottedAdds(short, path);
  }

  lemma DottedAdds(short: bytes, path: bytes)
    requires |short| < |path| && (Normalized(Dotted(short)).Ok? ==> |Normalized(Dotted(short)).value| <= |short|)
    ensures Added(Dotted(short)) != Ok([path]) && (Added(Dotted(short)).Ok? ==> |Added(Dotted(short)).value| == 1)
  {
    assert Dotted(short)[0] == DOT;
    if Added(Dotted(short)).Ok? {
      assert Added(Dotted(short)).value[0] != path;
    }
  }

  /** Without newlines, one line gives one path. */
  lemma {:induction false} LinesReadBack(paths: seq<bytes>)
    requires forall i | 0 <= i < |paths| :: Clean(paths[i]) && NEWLINE !in paths[i]
    ensures ReadList(Written(paths, NEWLINE), false) == Ok(paths) <==>
            forall i | 0 <= i < |paths| :: FitsALine(paths[i])
  {
    if paths == [] {
      ReadNothing(false);
    } else {
      assert paths == [paths[0]] + paths[1..];
      LinesReadBack(paths[1..]);
      WrittenReads(paths, false);
      if FitsALine(paths[0]) {
        DottedReadsAsOne(paths[0], false);
        FirstOfTwo(paths[0], paths[1..], Ok([paths[0]]), ReadList(Written(paths[1..], NEWLINE), false));
      } else {
        ReturnIsLost(paths[0]);
        FirstOfTwo(
          paths[0], paths[1..], ReadList(Dotted(paths[0]), false), ReadList(Written(paths[1..], NEWLINE), false));
      }
    }
  }

  lemma FirstOfTwo(
    path: bytes, rest: seq<bytes>, first: Result<seq<bytes>, Refusal>, second: Result<seq<bytes>, Refusal>)
    requires first.Ok? ==> |first.value| == 1
    ensures Then(first, second) == Ok([path] + rest) <==> first == Ok([path]) && second == Ok(rest)
  {
    if Then(first, second) == Ok([path] + rest) {
      assert first.value == (first.value + second.value)[..1];
      assert second.value == (first.value + second.value)[1..];
      assert rest == ([path] + rest)[1..];
    }
  }

  /** Written line by line, clean paths read back exactly when none holds a newline or ends in a
      carriage return. */
  lemma LineListReadsBackExactly(paths: seq<bytes>)
    requires forall i | 0 <= i < |paths| :: Clean(paths[i])
    ensures ReadList(Written(paths, NEWLINE), false) == Ok(paths) <==>
            forall i | 0 <= i < |paths| :: FitsALine(paths[i])
  {
    if ReadList(Written(paths, NEWLINE), false) == Ok(paths) {
      PathsWithout(Split(Written(paths, NEWLINE), NEWLINE));
    }
    if forall i | 0 <= i < |paths| :: NEWLINE !in paths[i] { LinesReadBack(paths); }
  }
}
