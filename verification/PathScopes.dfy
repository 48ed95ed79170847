/** What a copy may change at its destination (`CopyOperation::validate`, `FilterPolicy` and
    `validate_absolute_path` in src/delegation.rs). Containment is tested on path bytes; here it is
    related to containment of path components. */
module PathScopes {
  import opened ByteStrings

  const MAX_PATH_BYTES: nat := 4096
  const MAX_MUTATION_SCOPES: nat := 1025
  const MAX_ENTRIES: nat := 1_000_000_000_000
  const MAX_COPY_BYTES: nat := 0x7FFF_FFFF_FFFF_FFFF
  const MAX_CONNECTIONS: nat := 128
  const MAX_FILTER_RULES: nat := 4096
  const MAX_FILTER_RULE_BYTES: nat := 4096
  const MAX_FILTER_ROOTS: nat := 1024

  const DOT: bytes := [46]
  const DOT_DOT: bytes := [46, 46]
  const ROOT: bytes := [SLASH]

  datatype Refusal =
    | NotAbsolute | ContainsNul | TrailingSlash | BadComponent
    | ScopeCount | DescendantsNotRecursive | ScopeOutside
    | EntryLimit | ByteLimit | FileLimit | ModePolicy | HashBlock | ConnectionLimit | PortRange | DeletionLimit
    | RuleCount | RuleRange | RuleSyntax | RootsWithoutRules | RootCount | RootOutside | RootsUnsorted

  // ----- Paths --------------------------------------------------------------------------

  predicate GoodComponent(component: bytes)
  {
    component != [] && component != DOT && component != DOT_DOT
  }

  function ValidatePath(path: bytes): Result<(), Refusal>
  {
    if path == [] || |path| > MAX_PATH_BYTES || path[0] != SLASH then Err(NotAbsolute)
    else if 0 in path then Err(ContainsNul)
    else if path == ROOT then Ok(())
    else if path[|path| - 1] == SLASH then Err(TrailingSlash)
    else if exists component | component in Split(path[1..], SLASH) :: !GoodComponent(component) then Err(BadComponent)
    else Ok(())
  }

  predicate ValidPath(path: bytes) { ValidatePath(path).Ok? }

  function Components(path: bytes): seq<bytes>
    requires path != []
  {
    if path == ROOT then [] else Split(path[1..], SLASH)
  }

  /** The test made on bytes: `base` itself, or `base` followed by a slash. */
  predicate Within(path: bytes, base: bytes)
  {
    path == base || (base <= path && |base| < |path| && path[|base|] == SLASH)
  }

  /** Component by component, `path` is `base` or lies below it. */
  predicate Contained(path: bytes, base: bytes)
    requires path != [] && base != []
  {
    Components(base) <= Components(path)
  }

  lemma DoubledSlashInvalid(path: bytes)
    requires |path| >= 2 && path[0] == path[1] == SLASH
    ensures !ValidPath(path)
  {
    assert path[1..] == [] + [SLASH] + path[2..];
    SplitAcross([], SLASH, path[2..]);
    var components := Split(path[1..], SLASH);
    assert components[0] == [] && components[0] in components;
  }

  lemma WithinSplits(path: bytes, base: bytes)
    requires path != [] && |base| > 1 && Within(path, base)
    ensures Contained(path, base)
  {
    if path != base {
      var rest := path[|base| + 1..];
      assert path[1..] == base[1..] + [SLASH] + rest;
      SplitAcross(base[1..], SLASH, rest);
    }
  }

  /** A list that begins with another joins to the other's text, or to that text, a separator and more. */
  lemma JoinPrefix<T>(above: seq<seq<T>>, below: seq<seq<T>>, sep: T) returns (more: seq<T>)
    requires above != [] && above <= below
    ensures Join(below, sep) == Join(above, sep) || Join(below, sep) == Join(above, sep) + [sep] + more
  {
    var rest := below[|above|..];
    assert below == above + rest;
    if rest == [] {
      assert below == above;
      more := [];
    } else {
      JoinAcross(above, rest, sep);
      more := Join(rest, sep);
    }
  }

  lemma ContainedJoins(path: bytes, base: bytes)
    requires |path| > 1 && |base| > 1 && path[0] == base[0] == SLASH && Contained(path, base)
    ensures Within(path, base)
  {
    var more := JoinPrefix(Split(base[1..], SLASH), Split(path[1..], SLASH), SLASH);
    JoinSplit(base[1..], SLASH);
    JoinSplit(path[1..], SLASH);
    SameHead(path, base, more);
  }

  lemma SameHead(path: bytes, base: bytes, more: bytes)
    requires |path| > 0 && |base| > 0 && path[0] == base[0]
    requires path[1..] == base[1..] || path[1..] == base[1..] + [SLASH] + more
    ensures Within(path, base)
  {
    assert path == [path[0]] + path[1..] && base == [path[0]] + base[1..];
  }

  /** For valid paths, the byte test is containment of components, except below `/`, where it
      admits `/` alone. */
  lemma WithinIsContained(path: bytes, base: bytes)
    requires ValidPath(path) && ValidPath(base)
    ensures Within(path, base) <==> (if base == ROOT then path == ROOT else Contained(path, base))
    ensures Within(path, base) ==> Contained(path, base)
  {
    if base == ROOT {
      if Within(path, base) && path != base { DoubledSlashInvalid(path); }
    } else {
      assert |base| > 1;
      if Within(path, base) { WithinSplits(path, base); }
      if path != ROOT && Contained(path, base) { ContainedJoins(path, base); }
    }
  }

  // ----- The copy -----------------------------------------------------------------------

  datatype Scope = Scope(path: bytes, descendants: bool)

  datatype Deletion = Forbid | DeleteDestinationOnly

  datatype Limits = Limits(
    maxEntries: nat, maxTotalBytes: nat, maxFileBytes: nat, hashBlockBytes: nat, maxConnections: nat, maxDeletions: nat)

  datatype Options = Options(
    recursive: bool, preservePermissions: bool, receiverManagedModes: bool, portLo: nat, portHi: nat)

  datatype Copy = Copy(destination: bytes, scopes: seq<Scope>, deletion: Deletion, options: Options, limits: Limits)

  function ValidateScopes(scopes: seq<Scope>, destination: bytes, recursive: bool): Result<(), Refusal>
  {
    if scopes == [] then Ok(())
    else match ValidatePath(scopes[0].path)
      case Err(refusal) => Err(refusal)
      case Ok(_) =>
        if scopes[0].descendants && !recursive then Err(DescendantsNotRecursive)
        else if !Within(scopes[0].path, destination) then Err(ScopeOutside)
        else ValidateScopes(scopes[1..], destination, recursive)
  }

  /** `proto::hash_response_fits`: the hashes of `len` bytes in blocks fit one frame. */
  predicate HashResponseFits(block: nat, len: nat)
  {
    65536 <= block <= 67_108_864 && (len + block - 1) / block * 32 + 24 < 68_157_440
  }

  function ValidateLimits(copy: Copy): Result<(), Refusal>
  {
    var l := copy.limits;
    if l.maxEntries == 0 || l.maxEntries > MAX_ENTRIES then Err(EntryLimit)
    else if l.maxTotalBytes == 0 || l.maxTotalBytes > MAX_COPY_BYTES then Err(ByteLimit)
    else if l.maxFileBytes > l.maxTotalBytes then Err(FileLimit)
    else if copy.options.preservePermissions == copy.options.receiverManagedModes then Err(ModePolicy)
    else if !HashResponseFits(l.hashBlockBytes, 0) then Err(HashBlock)
    else if l.maxConnections == 0 || l.maxConnections > MAX_CONNECTIONS then Err(ConnectionLimit)
    else if copy.options.portHi < copy.options.portLo then Err(PortRange)
    else match copy.deletion
      case Forbid => if l.maxDeletions != 0 then Err(DeletionLimit) else Ok(())
      case DeleteDestinationOnly =>
        if l.maxDeletions == 0 || l.maxDeletions > l.maxEntries then Err(DeletionLimit) else Ok(())
  }

  function ValidateCopy(copy: Copy): Result<(), Refusal>
  {
    match ValidatePath(copy.destination)
    case Err(refusal) => Err(refusal)
    case Ok(_) =>
      if copy.scopes == [] || |copy.scopes| > MAX_MUTATION_SCOPES then Err(ScopeCount)
      else match ValidateScopes(copy.scopes, copy.destination, copy.options.recursive)
        case Err(refusal) => Err(refusal)
        case Ok(_) => ValidateLimits(copy)
  }

  /** What the loop over the scopes establishes, in terms of components. */
  predicate ScopeAllowed(scope: Scope, destination: bytes, recursive: bool)
    requires ValidPath(destination)
  {
    && ValidPath(scope.path) && (scope.descendants ==> recursive)
    && (if destination == ROOT then scope.path == ROOT else Contained(scope.path, destination))
  }

  lemma {:induction false} ScopesAllowedExactly(scopes: seq<Scope>, destination: bytes, recursive: bool)
    requires ValidPath(destination)
    ensures ValidateScopes(scopes, destination, recursive).Ok?
       <==> forall scope | scope in scopes :: ScopeAllowed(scope, destination, recursive)
  {
    if scopes != [] {
      ScopesAllowedExactly(scopes[1..], destination, recursive);
      if ValidPath(scopes[0].path) { WithinIsContained(scopes[0].path, destination); }
      assert scopes[0] in scopes;
      assert forall scope :: scope in scopes <==> scope == scopes[0] || scope in scopes[1..];
      assert ValidateScopes(scopes, destination, recursive).Ok? <==>
               && ScopeAllowed(scopes[0], destination, recursive)
               && ValidateScopes(scopes[1..], destination, recursive).Ok?;
    }
  }

  // ----- The filters --------------------------------------------------------------------

  datatype Filters = Filters(ignore: seq<bytes>, roots: seq<bytes>, deleteExcluded: bool)

  function Insert(x: bytes, sorted: seq<bytes>): seq<bytes>
  {
    if sorted == [] || !LexLess(sorted[0], x) then [x] + sorted else [sorted[0]] + Insert(x, sorted[1..])
  }

  function Sort(xs: seq<bytes>): seq<bytes>
  {
    if xs == [] then [] else Insert(xs[0], Sort(xs[1..]))
  }

  /** `Vec::dedup`: drops consecutive repeats. */
  function Dedup(xs: seq<bytes>): seq<bytes>
  {
    if |xs| < 2 then xs
    else if xs[0] == xs[1] then Dedup(xs[1..])
    else [xs[0]] + Dedup(xs[1..])
  }

  function Normalize(f: Filters): Filters
  {
    if f.ignore == [] then f.(deleteExcluded := false, roots := [])
    else f.(roots := Dedup(Sort(f.roots)))
  }

  predicate RootAllowed(root: bytes, scopes: seq<Scope>)
  {
    exists scope | scope in scopes :: root == scope.path || (scope.descendants && Within(root, scope.path))
  }

  function ValidateRoots(roots: seq<bytes>, scopes: seq<Scope>): Result<(), Refusal>
  {
    if roots == [] then Ok(())
    else match ValidatePath(roots[0])
      case Err(refusal) => Err(refusal)
      case Ok(_) => if !RootAllowed(roots[0], scopes) then Err(RootOutside) else ValidateRoots(roots[1..], scopes)
  }

  predicate Ascending(xs: seq<bytes>) { forall i | 0 <= i < |xs| - 1 :: LexLess(xs[i], xs[i + 1]) }

  /** `compiles` stands for building the ignore matcher, which is not part of this model. */
  function ValidateFilters(f: Filters, copy: Copy, compiles: seq<bytes> -> bool): Result<(), Refusal>
  {
    if |f.ignore| > MAX_FILTER_RULES then Err(RuleCount)
    else if exists rule | rule in f.ignore :: |rule| > MAX_FILTER_RULE_BYTES || 0 in rule then Err(RuleRange)
    else if !compiles(f.ignore) then Err(RuleSyntax)
    else if f.ignore == [] then (if f.roots != [] then Err(RootsWithoutRules) else Ok(()))
    else if f.roots == [] || |f.roots| > MAX_FILTER_ROOTS then Err(RootCount)
    else match ValidateRoots(f.roots, copy.scopes)
      case Err(refusal) => Err(refusal)
      case Ok(_) => if !Ascending(f.roots) then Err(RootsUnsorted) else Ok(())
  }

  /** The path rules of `validate_rules`: the filters a receiver will use, or a refusal. */
  function ValidateRules(copy: Copy, f: Filters, compiles: seq<bytes> -> bool): Result<Filters, Refusal>
  {
    match ValidateCopy(copy)
    case Err(refusal) => Err(refusal)
    case Ok(_) =>
      match ValidateFilters(Normalize(f), copy, compiles)
      case Err(refusal) => Err(refusal)
      case Ok(_) => Ok(Normalize(f))
  }

  // ----- Normalizing --------------------------------------------------------------------

  /** Equal neighbours may follow one another, as after a sort. */
  predicate Nondescending(xs: seq<bytes>) { forall i | 0 <= i < |xs| - 1 :: LexLeq(xs[i], xs[i + 1]) }

  lemma {:induction false} InsertKeepsOrder(x: bytes, xs: seq<bytes>)
    requires Nondescending(xs)
    ensures Nondescending(Insert(x, xs)) && multiset(Insert(x, xs)) == multiset(xs) + multiset{x}
    ensures Insert(x, xs) != [] && (Insert(x, xs)[0] == x || (xs != [] && Insert(x, xs)[0] == xs[0]))
  {
    if xs != [] && LexLess(xs[0], x) {
      InsertKeepsOrder(x, xs[1..]);
      LexAsymmetric(xs[0], x);
      assert xs == [xs[0]] + xs[1..];
      var r := Insert(x, xs);
      assert r[1..] == Insert(x, xs[1..]);
      forall i | 0 <= i < |r| - 1
        ensures LexLeq(r[i], r[i + 1])
      {
        if i > 0 {
          assert r[i] == r[1..][i - 1] && r[i + 1] == r[1..][i];
        } else if r[1] != x {
          assert LexLeq(xs[0], xs[0 + 1]);
        }
      }
    } else {
      var r := Insert(x, xs);
      forall i | 0 <= i < |r| - 1
        ensures LexLeq(r[i], r[i + 1])
      {
        if i > 0 { assert r[i] == xs[i - 1] && r[i + 1] == xs[i]; }
      }
    }
  }

  lemma {:induction false} SortSorts(xs: seq<bytes>)
    ensures Nondescending(Sort(xs)) && multiset(Sort(xs)) == multiset(xs)
  {
    if xs != [] {
      SortSorts(xs[1..]);
      InsertKeepsOrder(xs[0], Sort(xs[1..]));
      assert xs == [xs[0]] + xs[1..];
    }
  }

  lemma {:induction false} DedupAscends(xs: seq<bytes>)
    requires Nondescending(xs)
    ensures Ascending(Dedup(xs)) && forall x :: x in Dedup(xs) <==> x in xs
    ensures xs != [] ==> Dedup(xs) != [] && Dedup(xs)[0] == xs[0]
  {
    if |xs| >= 2 {
      assert xs == [xs[0]] + xs[1..] && xs[1..][0] == xs[1];
      assert Nondescending(xs[1..]) by {
        forall i | 0 <= i < |xs[1..]| - 1
          ensures LexLeq(xs[1..][i], xs[1..][i + 1])
        {
          assert LexLeq(xs[i + 1], xs[i + 1 + 1]);
        }
      }
      DedupAscends(xs[1..]);
      if xs[0] != xs[1] {
        LexTrichotomy(xs[0], xs[1]);
        assert LexLeq(xs[0], xs[0 + 1]);
        var r := Dedup(xs);
        forall i | 0 <= i < |r| - 1
          ensures LexLess(r[i], r[i + 1])
        {
          if i > 0 { assert r[i] == Dedup(xs[1..])[i - 1] && r[i + 1] == Dedup(xs[1..])[i]; }
        }
      }
    }
  }

  /** Normalized roots are the given roots, each once and in order. */
  lemma {:induction false} NormalizedRootsAscend(f: Filters)
    ensures Ascending(Normalize(f).roots)
    ensures f.ignore != [] ==> forall root :: root in Normalize(f).roots <==> root in f.roots
  {
    SortSorts(f.roots);
    DedupAscends(Sort(f.roots));
    assert forall root :: root in Sort(f.roots) <==> root in multiset(Sort(f.roots));
    assert forall root :: root in f.roots <==> root in multiset(f.roots);
  }

  /** So the check of the roots' order never refuses a copy. */
  lemma {:induction false} OrderNeverRefuses(copy: Copy, f: Filters, compiles: seq<bytes> -> bool)
    ensures ValidateRules(copy, f, compiles) != Err(RootsUnsorted)
  {
    NormalizedRootsAscend(f);
    RootsRefusals(Normalize(f).roots, copy.scopes);
    ScopesRefusals(copy.scopes, copy.destination, copy.options.recursive);
  }

  lemma {:induction false} RootsRefusals(roots: seq<bytes>, scopes: seq<Scope>)
    ensures ValidateRoots(roots, scopes).Ok? ==>
              forall root | root in roots :: ValidPath(root) && RootAllowed(root, scopes)
    ensures ValidateRoots(roots, scopes) != Err(RootsUnsorted)
  {
    if roots != [] {
      RootsRefusals(roots[1..], scopes);
      assert forall root :: root in roots <==> root == roots[0] || root in roots[1..];
    }
  }

  lemma {:induction false} ScopesRefusals(scopes: seq<Scope>, destination: bytes, recursive: bool)
    ensures ValidateScopes(scopes, destination, recursive) != Err(RootsUnsorted)
  {
    if scopes != [] { ScopesRefusals(scopes[1..], destination, recursive); }
  }

  // ----- Confinement --------------------------------------------------------------------

  /** Rules that validate confine the copy: every scope lies under the destination, and every filter
      root is a scope or lies under a scope that covers descendants, component by component; a copy
      to `/` can name nothing but `/` itself. */
  lemma RulesConfine(copy: Copy, f: Filters, compiles: seq<bytes> -> bool)
    requires ValidateRules(copy, f, compiles).Ok?
    ensures ValidPath(copy.destination)
    ensures forall scope | scope in copy.scopes :: ScopeAllowed(scope, copy.destination, copy.options.recursive)
    ensures forall root | root in ValidateRules(copy, f, compiles).value.roots ::
              && ValidPath(root) && Contained(root, copy.destination)
              && (exists scope | scope in copy.scopes ::
                    && scope.path != [] && Contained(root, scope.path)
                    && (scope.descendants || root == scope.path))
              && (copy.destination == ROOT ==> root == ROOT)
  {
    ScopesAllowedExactly(copy.scopes, copy.destination, copy.options.recursive);
    var roots := Normalize(f).roots;
    RootsRefusals(roots, copy.scopes);
    forall root | root in roots
      ensures && ValidPath(root) && Contained(root, copy.destination)
              && (exists scope | scope in copy.scopes ::
                    && scope.path != [] && Contained(root, scope.path)
                    && (scope.descendants || root == scope.path))
              && (copy.destination == ROOT ==> root == ROOT)
    {
      assert RootAllowed(root, copy.scopes);
      var scope :| scope in copy.scopes && (root == scope.path || (scope.descendants && Within(root, scope.path)));
      assert ScopeAllowed(scope, copy.destination, copy.options.recursive);
      WithinIsContained(root, scope.path);
      assert Components(copy.destination) <= Components(scope.path) <= Components(root);
    }
  }
}
