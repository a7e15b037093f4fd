/** The parts of golang.org/x/tools/go/packages that the loader layer looks at.
    These types belong to an external library; only the fields read by
    loadpackage.go are modelled, and as plain values. */
module Packages {
  import opened Wrappers

  /** A packages.Error, reduced to the text its Error() method produces
      (that text is formatted by the library and is opaque here). */
  datatype PackageError = PackageError(text: string)

  /** A packages.ModuleError, reduced to its Err message. */
  datatype ModuleError = ModuleError(err: string)

  /** A packages.Module, reduced to its optional Error. */
  datatype Module = Module(error: Option<ModuleError>)

  /** A packages.Package, reduced to its Errors list and its optional Module (field `mod`,
      since `module` is a Dafny keyword). */
  datatype Package = Package(errors: seq<PackageError>, mod: Option<Module>)

  /** What a call of packages.Load returned: an (opaque) error, or the ordered list
      of package pointers, any of which may be nil. */
  datatype LoaderOutcome =
    | LoaderFailed(err: string)
    | Loaded(pkgs: seq<Option<Package>>)
}
