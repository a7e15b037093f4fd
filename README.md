# loadpackage, modelled in Dafny

`loadpackage` loads exactly one Go package by pattern, on top of
`golang.org/x/tools/go/packages`. Before it loads anything, `Load` refuses:

- the ten reserved names `main`, `all`, `std`, `cmd`, `tool`, each also with the
  `pattern=` prefix;
- any pattern containing the wildcard `...`.

It then calls the library loader. A loader error is passed back as it is. Any
result other than exactly one package is refused. The single package goes
through `Validate`, which turns the package's errors and its module's error into
one aggregate `Error`. `Error()` renders that aggregate as text, one cause per
line. `Unwrap()` returns the package errors one by one.

Files:

- `wrappers.dfy`: `Option` (a nullable pointer) and `Result` (a Go `(value, error)` pair).
- `packages.dfy`: the library types as values. Each is reduced to the fields
  `loadpackage.go` reads: a package's `Errors` and `Module`, a module's `Error`, a
  module error's `Err` and a package error's text. The loader's outcome is an input
  value: an opaque error, or the list of package pointers it returned.
- `strings.dfy`: substring search as `strings.Contains` does it, plus a reference
  definition by position. Also newline joining and the splitting that undoes it.
- `loadpackage.dfy`: the aggregate `Error`, the `LoadError` cases, `Validate` and
  `Load` as functions, `Error()` and `Unwrap()` as methods with loops, and the lemmas.

`Load` and `Validate` are straight-line code with no mutation, so they are
functions. `Error()` and `Unwrap()` build their results in loops. They are methods
proved equal to `Formatted` (the cause texts joined by newlines) and to the
identity on the error list. The partner of `Formatted` is `Strings.Split`:
splitting the text at newlines gives back every cause, provided no cause text
itself contains a newline.

The two pattern errors have different messages in the code: "pattern cannot be a
reserved name" and "pattern cannot contain wildcards". The model keeps them
apart as `ReservedName` and `Wildcards`.

`LoadError.Message` gives the text of each error: the messages of
loadpackage.go:22, 25, 32 and 42, the loader's own error text, and, for an
aggregate, the text of its `Error()` method (`Formatted`).

## Model

| member | source | states |
|---|---|---|
| `LoadPackage.Load` | loadpackage.go:13-38 | A reserved name fails with ReservedName. Otherwise a pattern containing "..." fails with Wildcards. Otherwise: a loader error is returned unchanged; a count other than one fails with WrongPackageCount; Validate's error is returned unchanged. Success happens exactly when the pattern is admissible, one non-nil package came back and it is clean, and the result is then that package. |
| `LoadPackage.RejectedBeforeLoading` | loadpackage.go:16-26 | For a reserved or wildcard pattern, Load gives the same result for any two loader outcomes, and that result is ReservedName or Wildcards. |
| `LoadPackage.WildcardAnywhereRejected` | loadpackage.go:24-26 | A non-reserved pattern with "..." at any index fails with Wildcards, whatever the loader returns. |
| `LoadPackage.AdmissibleHasNoWildcard` | loadpackage.go:24-27 | A pattern that reaches the loader has "..." at no index. |
| `LoadPackage.LoadSucceedsOnlyIfValid` | loadpackage.go:34-37 | A package that Load returns passes Validate. |
| `LoadPackage.Validate` | loadpackage.go:40-53 | nil gives NilPackage. It returns no error exactly when the package has no errors and no module error. Otherwise it returns an aggregate whose errors are the package's errors and whose module error is the module's error, or none when there is no module. |
| `LoadPackage.AggregateHasCause` | loadpackage.go:44-52 | Every aggregate that Validate builds holds at least one package error or a module error. |
| `LoadPackage.ErrorText` | loadpackage.go:60-72 | The loop with its conditional newline, followed by the module text, produces exactly the cause texts joined by newlines. |
| `LoadPackage.Unwrap` | loadpackage.go:74-80 | Returns the package errors, all of them, in order, with nothing else. The module error is not included. |
| `LoadPackage.FormattedEnds` | loadpackage.go:60-72 | When there is at least one cause, the text starts with the first cause and ends with the last. No separator comes before the first or after the last. |
| `LoadPackage.FormattedModuleOnly` | loadpackage.go:60-72 | With no package errors and a module error, the text is exactly the module error's text. |
| `LoadPackage.FormattedTwoAndModule` | loadpackage.go:60-72 | Errors E1, E2 and module error M give E1 + "\n" + E2 + "\n" + M. |
| `LoadPackage.FormattedWithoutModule` | loadpackage.go:60-72 | With no module error, the text is the package error texts joined by newlines. |
| `LoadPackage.FormattedSplitsIntoCauses` | loadpackage.go:60-72 | When there is a cause and no cause text holds a newline, splitting the text at newlines gives back the cause texts in order. |
| `LoadPackage.ValidateReportsEveryCause` | loadpackage.go:40-72 | A package that fails validation gets an aggregate. Its message, split at newlines, is the package's error texts followed by its module's error text. |
| `Strings.ContainsIffOccurs` | loadpackage.go:24 | The substring test used by the wildcard gate holds exactly when "..." occurs at some index, in both directions. |
| `Strings.SplitJoin` | loadpackage.go:60-72 | Split undoes the newline join on any non-empty list of newline-free parts. |
| `Strings.JoinEnds` | loadpackage.go:60-72 | A newline join starts with its first part and ends with its last. |

## Left out

- The workings of `packages.Load` (loadpackage.go:27) are not modelled. It reads the file system and runs `go list`. Its outcome is a parameter of `Load`: an error, or the list of package pointers.
- `packages.Config` is passed through without being looked at, so it does not appear.
- The text of `packages.Error.Error()` comes from the external library, so it is an opaque string. The rest of `packages.Package` and `packages.Module` is left out for the same reason.
- The loader's error is an opaque string. Go error identity, and `errors.Is`/`errors.As` walking `Unwrap() []error`, are runtime semantics and are not modelled. `Unwrap` returns the list as values.
- `strings.Builder` buffering and the capacity hint given to `make` only affect performance.
- Go strings are bytes, while the model uses `char`. Nothing in this code depends on the encoding.
- `Load` returns the package as a value, so pointer identity of `pkgs[0]` is not modelled.
- `e.Errors = pkg.Errors` (loadpackage.go:48) makes the aggregate share the slice with the package; the model copies a value, so later changes to either are not modelled.
- `Error()` and `Unwrap()` panic on a nil `*Error` receiver (loadpackage.go:60, 74); the model's `Error` is a value and is never nil.
