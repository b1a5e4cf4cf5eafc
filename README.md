# A model of the registry's "show a resource" command

The domain registry's administrative tool has a family of commands that print
one resource (a host, a domain, a contact) as it is at a read timestamp. They
share `GetEppResourceCommand`. It does two things:

- `run()` refuses a `--read_timestamp` that is strictly earlier than the moment
  the command was created. Otherwise it hands over to the concrete command's
  `processParameters()` step.
- `printResource(uniqueId)` looks the resource up at the read timestamp and
  prints one of two messages:
  - `<rendering>\n\nWebsafe key: <key>` when a resource is found. The rendering
    is the plain form, or the hydrated form with `--expand`.
  - `<Kind> '<id>' does not exist or is deleted\n` when nothing is found. The kind
    is the class's simple name with "Resource" deleted.

The project has three modules:

- `Wrappers` (Wrappers.dfy): `Option`.
- `Strings` (Strings.dfy): the two `java.lang.String` operations the messages are
  built with.
  - `ReplaceAll` is `String.replace`: one left-to-right pass, with no overlapping
    matches and no rescanning.
  - `Format` is `String.format` with the `%s` conversion.
- `Tools` (Tools.dfy): the command itself.
  - The class `GetEppResourceCommand` has the fields `now`, `readTimestamp`,
    `expand` and `stdout`.
  - The guard is `CheckReadTimestamp`, which is Guava's `checkArgument` over
    Joda's strict `isBefore`.
  - The message is `Render`.
  - `KindName` derives the kind from the simple name.

Instants are integer milliseconds. The lookup `loadByUniqueId` is the function
parameter `Lookup<R>`. A resource's `toString()`, `toHydratedString()` and
websafe key string are the opaque functions in `ResourceViews<R>`.

A missing host (class `HostResource`) prints as
`Host 'nonexistent.example' does not exist or is deleted\n`, because the kind
keeps the capital letter of the class's simple name (`Tools.HostNotFoundMessage`).

## Model

| member | source | states |
|---|---|---|
| `Tools.IsBefore` | java/google/registry/tools/GetEppResourceCommand.java:73 | Joda's `isBefore` on millisecond instants, strictly earlier; its contract is `Tools.CheckReadTimestamp` |
| `Tools.CheckArgument` | java/google/registry/tools/GetEppResourceCommand.java:73 | Guava's `checkArgument`, an illegal-argument error carrying the message when the condition is false; its contract is `Tools.CheckReadTimestamp` |
| `Tools.KindName` | java/google/registry/tools/GetEppResourceCommand.java:67 | the kind is `clazz.getSimpleName().replace("Resource", "")`; its contract is `Tools.KindNameOfResourceClass`, `Tools.KindNameUnchangedIff` and `Tools.KindNamesOfRegistryResources` |
| `Tools.Render` | java/google/registry/tools/GetEppResourceCommand.java:61-68 | the message `printResource` prints, built with `String.format` from the lookup's result; its contract is `Tools.RenderFound`, `Tools.RenderNotFound` and `Tools.RenderExpandOnlySelectsRendering` |
| `Strings.ReplaceAll` | java/google/registry/tools/GetEppResourceCommand.java:67 | `String.replace`, one left-to-right pass; its contract is `Strings.ReplaceAllKeepsPrefix`, `Strings.ReplaceAllAtFront`, `Strings.ReplaceAllWithoutOccurrence` and `Strings.DeleteAllUnchangedIff` |
| `Strings.Format` | java/google/registry/tools/GetEppResourceCommand.java:62-68 | `String.format` with `%s`; its contract is `Strings.FormatLiteral`, `Strings.FormatPlaceholder`, `Strings.FormatTwoConversions` and `Strings.FormatMissingArgument` |
| `Tools.CheckReadTimestamp` | java/google/registry/tools/GetEppResourceCommand.java:73 | the guard fails exactly when the read timestamp is strictly before `now`, and then with the illegal-argument error "--read_timestamp may not be in the past"; equal or later timestamps pass |
| `Tools.DefaultReadTimestampAccepted` | java/google/registry/tools/GetEppResourceCommand.java:38-45 | the default read timestamp (the creation instant) passes the guard |
| `Tools.GetEppResourceCommand.constructor` | java/google/registry/tools/GetEppResourceCommand.java:38-50 | a new command has `readTimestamp == now`, `expand` off, nothing printed and no `processParameters()` call yet |
| `Tools.GetEppResourceCommand.SetReadTimestamp` | java/google/registry/tools/GetEppResourceCommand.java:42-45 | the `--read_timestamp` flag overwrites the default |
| `Tools.GetEppResourceCommand.SetExpand` | java/google/registry/tools/GetEppResourceCommand.java:47-50 | the `--expand` flag sets `expand` |
| `Tools.GetEppResourceCommand.Run` | java/google/registry/tools/GetEppResourceCommand.java:71-75 | the outcome is the guard's verdict on `(now, readTimestamp)`; a refused run leaves the output and the `processParameters()` count unchanged; a passing run calls `processParameters()` exactly once |
| `Tools.GetEppResourceCommand.ProcessParameters` | java/google/registry/tools/GetEppResourceCommand.java:52-53 | the abstract step is counted once per call and may only append to the output |
| `Tools.GetEppResourceCommand.Println` | java/google/registry/tools/GetEppResourceCommand.java:61 | printing appends the text and a line terminator to standard output |
| `Tools.GetEppResourceCommand.PrintResource` | java/google/registry/tools/GetEppResourceCommand.java:59-69 | the output grows by exactly the message for what the lookup returns for this class and `uniqueId` at `readTimestamp` (not at `now`), plus a line terminator |
| `Tools.RunWithDefaults` | java/google/registry/tools/GetEppResourceCommand.java:38-75 | a command run with the default read timestamp is never refused and reaches `processParameters()` once |
| `Tools.RunWithPastTimestamp` | java/google/registry/tools/GetEppResourceCommand.java:72-75 | a read timestamp in the past gives the illegal-argument error, no `processParameters()` call and no output |
| `Tools.ShowAt` | java/google/registry/tools/GetEppResourceCommand.java:59-68 | `printResource` called directly after the flags are parsed, with a `--read_timestamp t` the guard accepts: the printed text is the message for the lookup's result at `t`, for the given id and class |
| `Tools.FoundTemplateFills` | java/google/registry/tools/GetEppResourceCommand.java:62-64 | formatting `"%s\n\nWebsafe key: %s"` with a rendering and a key gives the rendering, the blank line and label, then the key |
| `Tools.NotFoundTemplateFills` | java/google/registry/tools/GetEppResourceCommand.java:65-68 | formatting `"%s '%s' does not exist or is deleted\n"` gives the kind, the quoted id and the fixed sentence |
| `Tools.RenderFound` | java/google/registry/tools/GetEppResourceCommand.java:61-64 | a found resource prints as its (hydrated if `expand`, else plain) rendering + `"\n\nWebsafe key: "` + the key of that same resource |
| `Tools.RenderExpandOnlySelectsRendering` | java/google/registry/tools/GetEppResourceCommand.java:63-64 | the expanded and shallow messages start with the hydrated and the plain rendering, and what follows is identical |
| `Tools.RenderNotFound` | java/google/registry/tools/GetEppResourceCommand.java:65-68 | nothing found prints as kind + `" '"` + id + `"' does not exist or is deleted\n"`, for either value of `expand` |
| `Tools.RenderNotFoundNamesId` | java/google/registry/tools/GetEppResourceCommand.java:65-68 | two different ids never give the same not-found message |
| `Tools.HostNotFoundMessage` | java/google/registry/tools/GetEppResourceCommand.java:65-68 | any missing id of class `HostResource`, `nonexistent.example` among them, prints `Host '<id>' does not exist or is deleted\n` |
| `Tools.KindNameOfResourceClass` | java/google/registry/tools/GetEppResourceCommand.java:67 | a name `<base>Resource` with no earlier "Resource" gives the kind `<base>` |
| `Tools.KindNameOfBaseWithoutR` | java/google/registry/tools/GetEppResourceCommand.java:67 | a name `<base>Resource` whose base has no `R` gives `<base>` |
| `Tools.KindNamesOfRegistryResources` | java/google/registry/tools/GetEppResourceCommand.java:67 | `HostResource`, `DomainResource` and `ContactResource` give `Host`, `Domain` and `Contact` |
| `Tools.KindNameUnchangedIff` | java/google/registry/tools/GetEppResourceCommand.java:67 | the kind equals the simple name exactly when "Resource" does not occur in it |
| `Tools.KindNameIsSinglePass` | java/google/registry/tools/GetEppResourceCommand.java:67 | `ResResourceource` gives `Resource`: text that forms "Resource" only after a deletion stays |
| `Strings.ReplaceAllWithoutOccurrence` | java/google/registry/tools/GetEppResourceCommand.java:67 | `replace` leaves a string in which the (non-empty) target does not occur unchanged |
| `Strings.DeleteAllShrinks` | java/google/registry/tools/GetEppResourceCommand.java:67 | deleting a non-empty target never lengthens a string, and shortens it whenever the target occurs |
| `Strings.DeleteAllUnchangedIff` | java/google/registry/tools/GetEppResourceCommand.java:67 | deleting a non-empty target leaves the string unchanged if and only if the target does not occur |
| `Strings.ReplaceAllKeepsPrefix` | java/google/registry/tools/GetEppResourceCommand.java:67 | a prefix where no occurrence starts is copied and `replace` continues on the rest |
| `Strings.ReplaceAllAtFront` | java/google/registry/tools/GetEppResourceCommand.java:67 | an occurrence at the front is replaced and the scan resumes after it |
| `Strings.FormatLiteral` | java/google/registry/tools/GetEppResourceCommand.java:62-66 | template text without `%` is copied to the output unchanged |
| `Strings.FormatPlaceholder` | java/google/registry/tools/GetEppResourceCommand.java:62-66 | a leading `%s` is replaced by the first argument and the rest uses the remaining ones |
| `Strings.FormatTwoConversions` | java/google/registry/tools/GetEppResourceCommand.java:62-66 | a template `%s<text>%s<text>` is filled with its two arguments in order |
| `Strings.FormatMissingArgument` | java/google/registry/tools/GetEppResourceCommand.java:62-66 | a `%s` with no argument left makes the format fail |

## Left out

- The versioned store and the point-in-time resolver behind `loadByUniqueId` are
  not part of this model. The lookup is the parameter `Lookup<R>`, a function of
  the class, the id and the timestamp.
- The websafe key encoding (`Key.create(resource).getString()`), `toString()` and
  `toHydratedString()` belong to library and resource-model code that is not
  part of this model. They are opaque functions.
- `DateTime.now(UTC)` reads the clock. `now` is a constructor parameter, and
  instants are integer milliseconds with no time zone.
- Finding the class by reflection (`TypeInstantiator`) is not modelled. The command
  receives the class as its simple name, which also stands for the class in the
  lookup.
- JCommander flag parsing is not modelled: the text syntax of timestamps and the
  `=` and space separators. `SetReadTimestamp` and `SetExpand` model only the
  assignment the parser makes.
- `System.out.println` is the `stdout` field. The platform line separator is
  modelled as `"\n"`.
- Tools.GetEppResourceCommand.ProcessParameters: the step is abstract in the source,
  and the concrete commands that implement it are not part of this model. The
  model counts its calls and promises only that output is appended, not which
  resources are printed.
- Strings.Format: only the `%s` conversion is modelled, the only one the command's
  templates use. Any other conversion, flag or width makes the model fail.
- Exceptions the lookup itself may throw (datastore errors) are not modelled.
  The only error modelled is the illegal-argument error of the timestamp guard.
- java/google/registry/flows/host/HostInfoFlow.java only binds the type
  parameters of a generic info flow, and that flow is not part of this model.
- java/google/registry/groups/DirectoryModule.java is dependency-injection wiring
  for a directory client, with no logic to model.
