/**
 * The administrative command that shows one registry resource (a host, a domain,
 * a contact) as it is at a read timestamp: the guard that refuses a read
 * timestamp in the past, and the text printed for a resource that was found or
 * not found.
 */
module Tools {
  import opened Wrappers
  import opened Strings

  /**
   * What the command can print about a resource: its `toString()`, its
   * `toHydratedString()` (the expanded form) and the websafe string of its
   * datastore key. Their encodings belong to the resource model and are opaque here.
   */
  datatype ResourceViews<!R> = ResourceViews(
    toString: R -> string,
    toHydratedString: R -> string,
    websafeKey: R -> string)

  /**
   * The point-in-time lookup `loadByUniqueId(clazz, uniqueId, timestamp)`: given
   * the resource class (by its simple name), a unique id and a timestamp in
   * milliseconds, the resource as it is at that time, or `None` when it does
   * not exist or is deleted then.
   */
  type Lookup<R> = (string, string, int) -> Option<R>

  datatype CommandError = IllegalArgumentException(message: string)

  /** The result of `run()`: it returns normally or throws. */
  datatype Outcome = Pass | Fail(error: CommandError)

  const ReadTimestampInPast := "--read_timestamp may not be in the past"
  const WebsafeKeyLabel := "\n\nWebsafe key: "
  const DoesNotExist := "' does not exist or is deleted\n"
  /** `"%s\n\nWebsafe key: %s"` */
  const FoundTemplate := "%s" + WebsafeKeyLabel + "%s"
  /** `"%s '%s' does not exist or is deleted\n"` */
  const NotFoundTemplate := "%s" + " '" + "%s" + DoesNotExist

  /** Joda-Time `t.isBefore(other)` on instants held as milliseconds: strictly earlier. */
  predicate IsBefore(t: int, other: int) {
    t < other
  }

  /** Guava `checkArgument`: throws an illegal-argument error carrying `message` when `expression` is false. */
  function CheckArgument(expression: bool, message: string): Outcome {
    if expression then Pass else Fail(IllegalArgumentException(message))
  }

  /**
   * The guard at the start of `run()`: the read timestamp is refused exactly
   * when it is strictly earlier than the moment the command was created.
   */
  function CheckReadTimestamp(now: int, readTimestamp: int): (r: Outcome)
    ensures r.Fail? <==> readTimestamp < now
    ensures r.Fail? ==> r.error == IllegalArgumentException(ReadTimestampInPast)
  {
    CheckArgument(!IsBefore(readTimestamp, now), ReadTimestampInPast)
  }

  /** The default read timestamp is the creation instant, which the guard accepts. */
  lemma DefaultReadTimestampAccepted(now: int)
    ensures CheckReadTimestamp(now, now) == Pass
  {
  }

  /** The kind shown in the not-found message: the class's simple name with "Resource" deleted. */
  function KindName(simpleName: string): string {
    ReplaceAll(simpleName, "Resource", "")
  }

  /**
   * A class named `<base>Resource`, where "Resource" appears nowhere earlier,
   * is shown as `<base>`.
   */
  lemma KindNameOfResourceClass(base: string)
    requires forall i: nat :: i < |base| ==> !OccursAt(base + "Resource", "Resource", i)
    ensures KindName(base + "Resource") == base
  {
    ReplaceAllKeepsPrefix(base, "Resource", "Resource", "");
    assert "Resource" == "Resource" + [];
    ReplaceAllAtFront([], "Resource", "");
    assert base + ("" + []) == base;
  }

  /** A name is shown as it stands exactly when "Resource" does not occur in it. */
  lemma KindNameUnchangedIff(simpleName: string)
    ensures KindName(simpleName) == simpleName <==> !Occurs(simpleName, "Resource")
  {
    DeleteAllUnchangedIff(simpleName, "Resource");
  }

  /** A base name with no capital R cannot hold an early occurrence of "Resource". */
  lemma KindNameOfBaseWithoutR(base: string)
    requires 'R' !in base
    ensures KindName(base + "Resource") == base
  {
    forall i: nat | i < |base|
      ensures !OccursAt(base + "Resource", "Resource", i)
    {
      assert base[i] in base;
      assert (base + "Resource")[i] == base[i];
      NotOccursAtIfDiffers(base + "Resource", "Resource", i, 0);
    }
    KindNameOfResourceClass(base);
  }

  /** The kinds of the registry's resource classes. */
  lemma KindNamesOfRegistryResources()
    ensures KindName("HostResource") == "Host"
    ensures KindName("DomainResource") == "Domain"
    ensures KindName("ContactResource") == "Contact"
  {
    assert "HostResource" == "Host" + "Resource";
    assert "DomainResource" == "Domain" + "Resource";
    assert "ContactResource" == "Contact" + "Resource";
    KindNameOfBaseWithoutR("Host");
    KindNameOfBaseWithoutR("Domain");
    KindNameOfBaseWithoutR("Contact");
  }

  /**
   * The deletion is a single pass: text that comes together only after an
   * occurrence is deleted is not deleted again.
   */
  lemma KindNameIsSinglePass()
    ensures KindName("Res" + "Resource" + "ource") == "Resource"
  {
    var t := "Resource";
    var rest := t + "ource";
    var s := "Res" + rest;
    assert s == "Res" + "Resource" + "ource";
    assert s[3] == 'R' && s[1] == 'e' && s[2] == 's';
    NotOccursAtIfDiffers(s, t, 0, 3);
    NotOccursAtIfDiffers(s, t, 1, 0);
    NotOccursAtIfDiffers(s, t, 2, 0);
    ReplaceAllKeepsPrefix("Res", rest, t, "");
    ReplaceAllAtFront("ource", t, "");
    ReplaceAllWithoutOccurrence("ource", t, "");
    assert "Res" + ("" + "ource") == "Resource";
  }

  /** The found form is the rendering, a blank line, and the websafe key. */
  lemma FoundTemplateFills(rendering: string, key: string)
    ensures Format(FoundTemplate, [rendering, key]) == Some(rendering + WebsafeKeyLabel + key)
  {
    assert FoundTemplate == "%s" + WebsafeKeyLabel + "%s" + [];
    FormatTwoConversions(WebsafeKeyLabel, [], rendering, key);
    assert rendering + WebsafeKeyLabel + key + [] == rendering + WebsafeKeyLabel + key;
  }

  /** The not-found form is the kind, the quoted id, and the fixed sentence ending in a newline. */
  lemma NotFoundTemplateFills(kind: string, uniqueId: string)
    ensures Format(NotFoundTemplate, [kind, uniqueId]) == Some(kind + " '" + uniqueId + DoesNotExist)
  {
    assert '%' !in DoesNotExist;
    FormatTwoConversions(" '", DoesNotExist, kind, uniqueId);
  }

  /**
   * The message `printResource` builds from the lookup's result: for a resource,
   * its plain or (with `expand`) hydrated rendering followed by its websafe key;
   * for nothing, a sentence naming the kind and the id.
   */
  function Render<R>(found: Option<R>, expand: bool, simpleName: string, uniqueId: string,
                     views: ResourceViews<R>): string
  {
    match found
    case Some(resource) =>
      var rendering := if expand then views.toHydratedString(resource) else views.toString(resource);
      FoundTemplateFills(rendering, views.websafeKey(resource));
      Format(FoundTemplate, [rendering, views.websafeKey(resource)]).value
    case None =>
      NotFoundTemplateFills(KindName(simpleName), uniqueId);
      Format(NotFoundTemplate, [KindName(simpleName), uniqueId]).value
  }

  /** A found resource is shown as its rendering, a blank line and the websafe key of that same resource. */
  lemma RenderFound<R>(resource: R, expand: bool, simpleName: string, uniqueId: string, views: ResourceViews<R>)
    ensures Render(Some(resource), expand, simpleName, uniqueId, views)
         == (if expand then views.toHydratedString(resource) else views.toString(resource))
            + WebsafeKeyLabel + views.websafeKey(resource)
  {
    var rendering := if expand then views.toHydratedString(resource) else views.toString(resource);
    FoundTemplateFills(rendering, views.websafeKey(resource));
  }

  /**
   * `expand` only chooses the rendering: the expanded message starts with the
   * hydrated form, the shallow one with the plain form, and the websafe-key text
   * after them is the same either way.
   */
  lemma RenderExpandOnlySelectsRendering<R>(resource: R, simpleName: string, uniqueId: string,
                                            views: ResourceViews<R>)
    ensures var expanded := Render(Some(resource), true, simpleName, uniqueId, views);
            var shallow := Render(Some(resource), false, simpleName, uniqueId, views);
            var h := views.toHydratedString(resource);
            var p := views.toString(resource);
            |h| <= |expanded| && |p| <= |shallow|
            && expanded[..|h|] == h && shallow[..|p|] == p
            && expanded[|h|..] == shallow[|p|..]
  {
    RenderFound(resource, true, simpleName, uniqueId, views);
    RenderFound(resource, false, simpleName, uniqueId, views);
    var sfx := WebsafeKeyLabel + views.websafeKey(resource);
    var h := views.toHydratedString(resource);
    var p := views.toString(resource);
    assert h + WebsafeKeyLabel + views.websafeKey(resource) == h + sfx;
    assert p + WebsafeKeyLabel + views.websafeKey(resource) == p + sfx;
    assert (h + sfx)[|h|..] == sfx;
    assert (p + sfx)[|p|..] == sfx;
  }

  /** Nothing found is shown as the kind, the quoted id and the fixed sentence, whatever `expand` is. */
  lemma RenderNotFound<R>(expand: bool, simpleName: string, uniqueId: string, views: ResourceViews<R>)
    ensures Render(None, expand, simpleName, uniqueId, views)
         == KindName(simpleName) + " '" + uniqueId + DoesNotExist
  {
    NotFoundTemplateFills(KindName(simpleName), uniqueId);
  }

  /** The not-found message names the id it was asked for: two different ids never share one. */
  lemma RenderNotFoundNamesId<R>(simpleName: string, id1: string, id2: string, views: ResourceViews<R>)
    requires Render(None, false, simpleName, id1, views) == Render(None, false, simpleName, id2, views)
    ensures id1 == id2
  {
    RenderNotFound(false, simpleName, id1, views);
    RenderNotFound(false, simpleName, id2, views);
    var head := KindName(simpleName) + " '";
    var tail := DoesNotExist;
    var m1 := head + id1 + tail;
    var m2 := head + id2 + tail;
    assert |id1| == |id2|;
    assert m1[|head|..|head| + |id1|] == id1;
    assert m2[|head|..|head| + |id2|] == id2;
  }

  /** Looking up a host that does not exist prints its kind as "Host". */
  lemma HostNotFoundMessage<R>(expand: bool, uniqueId: string, views: ResourceViews<R>)
    ensures Render(None, expand, "HostResource", uniqueId, views) == "Host '" + uniqueId + DoesNotExist
  {
    KindNamesOfRegistryResources();
    RenderNotFound(expand, "HostResource", uniqueId, views);
    assert "Host" + " '" == "Host '";
  }

  /**
   * One invocation of the command for resources of class `simpleName`. `now` is
   * fixed when the command is created; `readTimestamp` and `expand` are the
   * command-line flags; `stdout` is what has been printed; the body of the
   * abstract `processParameters()` step belongs to each concrete command, so
   * only its invocations are counted.
   */
  class GetEppResourceCommand<R> {
    const now: int
    const simpleName: string
    var readTimestamp: int
    var expand: bool
    var stdout: string
    var processParametersCalls: nat

    /** A fresh command: the read timestamp defaults to the creation instant, `--expand` is off. */
    constructor (now: int, simpleName: string)
      ensures this.now == now && this.simpleName == simpleName
      ensures readTimestamp == now && !expand
      ensures stdout == [] && processParametersCalls == 0
    {
      this.now := now;
      this.simpleName := simpleName;
      readTimestamp := now;
      expand := false;
      stdout := [];
      processParametersCalls := 0;
    }

    /** The flag parser setting `--read_timestamp`. */
    method SetReadTimestamp(t: int)
      modifies this`readTimestamp
      ensures readTimestamp == t
    {
      readTimestamp := t;
    }

    /** The flag parser setting `--expand`. */
    method SetExpand(b: bool)
      modifies this`expand
      ensures expand == b
    {
      expand := b;
    }

    /** `System.out.println`: the text and a line terminator are appended to standard output. */
    method Println(s: string)
      modifies this`stdout
      ensures stdout == old(stdout) + s + "\n"
    {
      stdout := stdout + s + "\n";
    }

    /**
     * Looks `uniqueId` up at the read timestamp (not at `now`) and prints the
     * found or not-found message for what the lookup returned.
     */
    method PrintResource(uniqueId: string, lookup: Lookup<R>, views: ResourceViews<R>)
      modifies this`stdout
      ensures stdout == old(stdout)
                        + Render(lookup(simpleName, uniqueId, readTimestamp), expand, simpleName, uniqueId, views)
                        + "\n"
    {
      var resource := lookup(simpleName, uniqueId, readTimestamp);
      Println(Render(resource, expand, simpleName, uniqueId, views));
    }

    /** The abstract step that resolves the parameters and prints the resources they name. */
    method ProcessParameters()
      modifies this`processParametersCalls, this`stdout
      ensures processParametersCalls == old(processParametersCalls) + 1
      ensures old(stdout) <= stdout
    {
      processParametersCalls := processParametersCalls + 1;
    }

    /**
     * Refuses a read timestamp in the past before doing anything else;
     * otherwise hands over to `processParameters()`.
     */
    method Run() returns (outcome: Outcome)
      modifies this`processParametersCalls, this`stdout
      ensures outcome == CheckReadTimestamp(now, readTimestamp)
      ensures outcome.Fail? ==> processParametersCalls == old(processParametersCalls) && stdout == old(stdout)
      ensures outcome.Pass? ==> processParametersCalls == old(processParametersCalls) + 1 && old(stdout) <= stdout
    {
      outcome := CheckReadTimestamp(now, readTimestamp);
      if outcome.Fail? {
        return;
      }
      ProcessParameters();
    }
  }

  /** A command run with the default read timestamp is never refused. */
  method RunWithDefaults<R>(now: int, simpleName: string) returns (outcome: Outcome, calls: nat)
    ensures outcome == Pass && calls == 1
  {
    var command := new GetEppResourceCommand<R>(now, simpleName);
    outcome := command.Run();
    calls := command.processParametersCalls;
  }

  /**
   * A command whose read timestamp is in the past is refused with the
   * illegal-argument error, never reaches `processParameters()` and prints nothing.
   */
  method RunWithPastTimestamp<R>(now: int, simpleName: string, readTimestamp: int)
    returns (outcome: Outcome, calls: nat, printed: string)
    requires readTimestamp < now
    ensures outcome == Fail(IllegalArgumentException(ReadTimestampInPast))
    ensures calls == 0 && printed == []
  {
    var command := new GetEppResourceCommand<R>(now, simpleName);
    command.SetReadTimestamp(readTimestamp);
    outcome := command.Run();
    calls := command.processParametersCalls;
    printed := command.stdout;
  }

  /**
   * Showing one resource with a `--read_timestamp` that the guard accepts prints
   * the message for what the lookup returns at that timestamp, followed by a
   * line terminator.
   */
  method ShowAt<R>(now: int, simpleName: string, readTimestamp: int, expand: bool, uniqueId: string,
                   lookup: Lookup<R>, views: ResourceViews<R>)
    returns (printed: string)
    requires now <= readTimestamp
    ensures printed == Render(lookup(simpleName, uniqueId, readTimestamp), expand, simpleName, uniqueId, views) + "\n"
  {
    var command := new GetEppResourceCommand<R>(now, simpleName);
    command.SetReadTimestamp(readTimestamp);
    command.SetExpand(expand);
    command.PrintResource(uniqueId, lookup, views);
    printed := command.stdout;
  }
}
