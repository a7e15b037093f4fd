/** Loading a single Go package by pattern: a gate on the pattern, one call of the
    external loader (whose outcome is an input here), a check that exactly one package
    came back, and validation of that package into an aggregate error. */
module LoadPackage {
  import opened Wrappers
  import opened Packages
  import Strings

  /** The aggregate error built by Validate: the package's own errors and, when the
      package's module failed, the module's error. */
  datatype Error = Error(errors: seq<PackageError>, moduleError: Option<ModuleError>)

  /** Every error Load and Validate can return. */
  datatype LoadError =
    | ReservedName                // "pattern cannot be a reserved name"
    | Wildcards                   // "pattern cannot contain wildcards"
    | LoaderError(cause: string)  // the loader's own error, passed through
    | WrongPackageCount           // "expected exactly one package"
    | NilPackage                  // "package is nil"
    | Aggregate(agg: Error)       // the package or its module carried errors
  {
    /** The text of the error's Error() method. */
    function Message(): string {
      match this
      case ReservedName => "pattern cannot be a reserved name"
      case Wildcards => "pattern cannot contain wildcards"
      case LoaderError(cause) => cause
      case WrongPackageCount => "expected exactly one package"
      case NilPackage => "package is nil"
      case Aggregate(agg) => Formatted(agg)
    }
  }

  /** The patterns that name a set of packages rather than one package. */
  const ReservedNames: set<string> := {
    "main", "pattern=main",
    "all", "pattern=all",
    "std", "pattern=std",
    "cmd", "pattern=cmd",
    "tool", "pattern=tool"
  }

  /** The wildcard marker of package patterns. */
  const Wildcard: string := "..."

  /** A pattern that passes the gate and is handed to the loader. */
  predicate Admissible(pattern: string) {
    pattern !in ReservedNames && !Strings.Contains(pattern, Wildcard)
  }

  /** The package carries a module that itself failed. */
  predicate HasModuleError(p: Package) {
    p.mod.Some? && p.mod.value.error.Some?
  }

  /** The module error, if the package has a module that has one. */
  function ModuleErrorOf(p: Package): Option<ModuleError> {
    if p.mod.Some? then p.mod.value.error else None
  }

  /** Neither the package nor its module reports an error. */
  predicate Clean(p: Package) {
    |p.errors| == 0 && !HasModuleError(p)
  }

  /** The aggregate holds at least one cause. */
  predicate HasCause(e: Error) {
    |e.errors| > 0 || e.moduleError.Some?
  }

  /** The texts of the package errors, in order. */
  function Texts(errs: seq<PackageError>): seq<string> {
    seq(|errs|, i requires 0 <= i < |errs| => errs[i].text)
  }

  /** The texts of every cause of the aggregate: the package errors in order, then
      the module error when there is one. */
  function CauseTexts(e: Error): seq<string> {
    Texts(e.errors) + if e.moduleError.Some? then [e.moduleError.value.err] else []
  }

  /** What Error() promises: the cause texts, one per line, with no separator before
      the first or after the last. */
  function Formatted(e: Error): string {
    Strings.Join(CauseTexts(e))
  }

  /** Validate: nil is an error; a package whose errors are empty and whose module
      (if any) has no error is accepted; otherwise its errors and its module's error
      are gathered into an aggregate. */
  function Validate(pkg: Option<Package>): (r: Option<LoadError>)
    ensures pkg.None? ==> r == Some(NilPackage)
    ensures pkg.Some? ==> (r.None? <==> Clean(pkg.value))
    ensures pkg.Some? && r.Some? ==>
      r.value.Aggregate? &&
      r.value.agg.errors == pkg.value.errors &&
      r.value.agg.moduleError == ModuleErrorOf(pkg.value)
  {
    match pkg
    case None => Some(NilPackage)
    case Some(p) =>
      if |p.errors| == 0 && (p.mod.None? || p.mod.value.error.None?) then None
      else
        var moduleError := if p.mod.Some? then p.mod.value.error else None;
        Some(Aggregate(Error(p.errors, moduleError)))
  }

  /** Load: the pattern gate comes first and decides without looking at the loader's
      outcome; then a loader error is passed through, a count other than one is
      refused, and the single package is returned only if it validates. */
  function Load(pattern: string, loaded: LoaderOutcome): (r: Result<Package, LoadError>)
    ensures pattern in ReservedNames ==> r == Failure(ReservedName)
    ensures pattern !in ReservedNames && Strings.Contains(pattern, Wildcard) ==>
      r == Failure(Wildcards)
    ensures Admissible(pattern) && loaded.LoaderFailed? ==>
      r == Failure(LoaderError(loaded.err))
    ensures Admissible(pattern) && loaded.Loaded? && |loaded.pkgs| != 1 ==>
      r == Failure(WrongPackageCount)
    ensures Admissible(pattern) && loaded.Loaded? && |loaded.pkgs| == 1 && r.Failure? ==>
      Validate(loaded.pkgs[0]) == Some(r.error)
    ensures r.Success? <==>
      Admissible(pattern) && loaded.Loaded? && |loaded.pkgs| == 1 &&
      loaded.pkgs[0].Some? && Clean(loaded.pkgs[0].value)
    ensures r.Success? ==> loaded.pkgs == [Some(r.value)]
  {
    if pattern in ReservedNames then Failure(ReservedName)
    else if Strings.Contains(pattern, Wildcard) then Failure(Wildcards)
    else
      match loaded
      case LoaderFailed(err) => Failure(LoaderError(err))
      case Loaded(pkgs) =>
        if |pkgs| != 1 then Failure(WrongPackageCount)
        else
          match Validate(pkgs[0])
          case Some(err) => Failure(err)
          case None => Success(pkgs[0].value)
  }

  /** Error(): writes each package error's text, followed by a newline unless it is
      the last one and no module error follows, then the module error's text. */
  method ErrorText(e: Error) returns (s: string)
    ensures s == Formatted(e)
  {
    ghost var ts := Texts(e.errors);
    var n := |e.errors|;
    s := "";
    for i := 0 to n
      invariant i == 0 ==> s == ""
      invariant 0 < i ==>
        s == Strings.Join(ts[..i]) + (if e.moduleError.Some? || i < n then "\n" else "")
    {
      assert ts[..i + 1][..i] == ts[..i];
      s := s + e.errors[i].text;
      if e.moduleError.Some? || i < n - 1 {
        s := s + "\n";
      }
    }
    assert ts[..n] == ts;
    if e.moduleError.Some? {
      s := s + e.moduleError.value.err;
      assert CauseTexts(e) == ts + [e.moduleError.value.err];
      assert CauseTexts(e)[..n] == ts;
    } else {
      assert CauseTexts(e) == ts;
    }
  }

  /** Unwrap(): the package errors as individual errors, in order; the module error
      is not among them. */
  method Unwrap(e: Error) returns (errs: seq<PackageError>)
    ensures errs == e.errors
  {
    errs := [];
    for i := 0 to |e.errors|
      invariant errs == e.errors[..i]
    {
      errs := errs + [e.errors[i]];
    }
  }

  /** The pattern gate decides without consulting the loader: a reserved or wildcard
      pattern fails with the same error whatever the loader would have returned. */
  lemma RejectedBeforeLoading(pattern: string, a: LoaderOutcome, b: LoaderOutcome)
    requires !Admissible(pattern)
    ensures Load(pattern, a) == Load(pattern, b)
    ensures Load(pattern, a) == Failure(ReservedName) || Load(pattern, a) == Failure(Wildcards)
  {
  }

  /** A non-reserved pattern with "..." at any position is refused as a wildcard. */
  lemma WildcardAnywhereRejected(pattern: string, i: nat, loaded: LoaderOutcome)
    requires pattern !in ReservedNames && Strings.OccursAt(pattern, Wildcard, i)
    ensures Load(pattern, loaded) == Failure(Wildcards)
  {
    Strings.ContainsIffOccurs(pattern, Wildcard);
  }

  /** An admissible pattern has no "..." anywhere in it. */
  lemma AdmissibleHasNoWildcard(pattern: string, i: nat)
    requires Admissible(pattern)
    ensures !Strings.OccursAt(pattern, Wildcard, i)
  {
    Strings.ContainsIffOccurs(pattern, Wildcard);
  }

  /** A successful load returns a package that passed Validate, and only then. */
  lemma LoadSucceedsOnlyIfValid(pattern: string, loaded: LoaderOutcome)
    ensures Load(pattern, loaded).Success? ==>
      Validate(Some(Load(pattern, loaded).value)).None?
  {
  }

  /** Validate builds an aggregate only when there is something to report. */
  lemma AggregateHasCause(pkg: Option<Package>)
    ensures Validate(pkg).Some? && Validate(pkg).value.Aggregate? ==>
      HasCause(Validate(pkg).value.agg)
  {
  }

  /** The text starts with the first cause and ends with the last one, so no
      separator is written before the first cause or after the last. */
  lemma FormattedEnds(e: Error)
    requires HasCause(e)
    ensures var c, s := CauseTexts(e), Formatted(e);
      c[0] <= s && |c[|c| - 1]| <= |s| && s[|s| - |c[|c| - 1]|..] == c[|c| - 1]
  {
    Strings.JoinEnds(CauseTexts(e));
  }

  /** With a module error and no package errors, the text is the module error's text. */
  lemma FormattedModuleOnly(m: ModuleError)
    ensures Formatted(Error([], Some(m))) == m.err
  {
    assert CauseTexts(Error([], Some(m))) == [m.err];
  }

  /** Two package errors and a module error give three lines with no trailing newline. */
  lemma FormattedTwoAndModule(e1: PackageError, e2: PackageError, m: ModuleError)
    ensures Formatted(Error([e1, e2], Some(m))) == e1.text + "\n" + e2.text + "\n" + m.err
  {
    var c := CauseTexts(Error([e1, e2], Some(m)));
    assert c == [e1.text, e2.text, m.err];
    assert c[..2] == [e1.text, e2.text];
    assert c[..2][..1] == [e1.text];
    assert Strings.Join(c[..2]) == e1.text + "\n" + e2.text;
  }

  /** Without a module error, the text is the package errors joined by newlines. */
  lemma FormattedWithoutModule(errs: seq<PackageError>)
    ensures Formatted(Error(errs, None)) == Strings.Join(Texts(errs))
  {
    assert CauseTexts(Error(errs, None)) == Texts(errs);
  }

  /** When no cause text holds a newline, splitting the text at newlines recovers
      every cause, in order: the package errors, then the module error. */
  lemma FormattedSplitsIntoCauses(e: Error)
    requires HasCause(e) && Strings.NoNewlines(CauseTexts(e))
    ensures Strings.Split(Formatted(e)) == CauseTexts(e)
  {
    Strings.SplitJoin(CauseTexts(e));
  }

  /** A package that fails validation reports all of its errors, and its module's
      error, recoverably in the aggregate's text. */
  lemma ValidateReportsEveryCause(p: Package)
    requires !Clean(p)
    requires Strings.NoNewlines(Texts(p.errors))
    requires HasModuleError(p) ==> '\n' !in p.mod.value.error.value.err
    ensures Validate(Some(p)).Some? && Validate(Some(p)).value.Aggregate?
    ensures Strings.Split(Validate(Some(p)).value.Message()) ==
      Texts(p.errors) + if HasModuleError(p) then [p.mod.value.error.value.err] else []
  {
    var e := Validate(Some(p)).value.agg;
    assert Strings.NoNewlines(CauseTexts(e));
    FormattedSplitsIntoCauses(e);
  }
}
