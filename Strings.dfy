/**
 * The two pieces of java.lang.String that the command builds its output with:
 * `String.replace(CharSequence, CharSequence)`, which replaces every occurrence
 * of a target in one left-to-right pass, and `String.format` restricted to the
 * `%s` conversion, the only one the command's templates use.
 */
module Strings {
  import opened Wrappers

  /** `target` occurs in `s` starting at index `i`. */
  predicate OccursAt(s: string, target: string, i: nat) {
    i + |target| <= |s| && s[i..i + |target|] == target
  }

  /** `target` occurs somewhere in `s`. */
  predicate Occurs(s: string, target: string) {
    exists i: nat | i <= |s| :: OccursAt(s, target, i)
  }

  /**
   * `s.replace(target, replacement)`: scanning from the left, each occurrence of
   * `target` is replaced and scanning resumes after it, so occurrences never
   * overlap and text produced by a replacement is not scanned again. An empty
   * target matches before every character and at the end.
   */
  function ReplaceAll(s: string, target: string, replacement: string): string
    decreases |s|
  {
    if target == [] then
      if s == [] then replacement
      else replacement + [s[0]] + ReplaceAll(s[1..], target, replacement)
    else if target <= s then
      replacement + ReplaceAll(s[|target|..], target, replacement)
    else if s == [] then
      []
    else
      [s[0]] + ReplaceAll(s[1..], target, replacement)
  }

  /** An occurrence in the tail of `s` is an occurrence in `s`, one position later. */
  lemma OccursInTail(s: string, target: string, i: nat)
    requires |s| > 0 && OccursAt(s[1..], target, i)
    ensures OccursAt(s, target, i + 1)
  {
    assert s[1..][i..i + |target|] == s[i + 1..i + 1 + |target|];
  }

  /** An occurrence after index 0 is an occurrence in the tail, one position earlier. */
  lemma OccursLater(s: string, target: string, i: nat)
    requires i > 0 && OccursAt(s, target, i)
    ensures OccursAt(s[1..], target, i - 1)
  {
    assert s[1..][i - 1..i - 1 + |target|] == s[i..i + |target|];
  }

  /** A non-empty target that is a prefix of `s` occurs in `s` at index 0, and conversely. */
  lemma PrefixIsOccurrenceAtZero(s: string, target: string)
    ensures target <= s <==> OccursAt(s, target, 0)
  {
    if OccursAt(s, target, 0) {
      assert s[..|target|] == target;
    }
  }

  /** A string in which the target does not occur comes back unchanged. */
  lemma {:induction false} ReplaceAllWithoutOccurrence(s: string, target: string, replacement: string)
    requires target != [] && !Occurs(s, target)
    ensures ReplaceAll(s, target, replacement) == s
    decreases |s|
  {
    if s != [] {
      PrefixIsOccurrenceAtZero(s, target);
      assert !OccursAt(s, target, 0);
      if Occurs(s[1..], target) {
        var i: nat :| OccursAt(s[1..], target, i);
        OccursInTail(s, target, i);
        assert false;
      }
      ReplaceAllWithoutOccurrence(s[1..], target, replacement);
    }
  }

  /**
   * Deleting a non-empty target never lengthens a string, and shortens it
   * whenever the target occurs: the leftmost occurrence is always deleted.
   */
  lemma {:induction false} DeleteAllShrinks(s: string, target: string)
    requires target != []
    ensures |ReplaceAll(s, target, [])| <= |s|
    ensures Occurs(s, target) ==> |ReplaceAll(s, target, [])| < |s|
    decreases |s|
  {
    if s != [] && target <= s {
      DeleteAllShrinks(s[|target|..], target);
    } else if s != [] {
      DeleteAllShrinks(s[1..], target);
      if Occurs(s, target) {
        var i: nat :| OccursAt(s, target, i);
        PrefixIsOccurrenceAtZero(s, target);
        OccursLater(s, target, i);
      }
    }
  }

  /** Deleting a non-empty target leaves `s` unchanged exactly when the target does not occur in it. */
  lemma DeleteAllUnchangedIff(s: string, target: string)
    requires target != []
    ensures ReplaceAll(s, target, []) == s <==> !Occurs(s, target)
  {
    if Occurs(s, target) {
      DeleteAllShrinks(s, target);
    } else {
      ReplaceAllWithoutOccurrence(s, target, []);
    }
  }

  /** A single differing character rules an occurrence out. */
  lemma NotOccursAtIfDiffers(s: string, target: string, i: nat, k: nat)
    requires k < |target| && i + k < |s| && s[i + k] != target[k]
    ensures !OccursAt(s, target, i)
  {
    if i + |target| <= |s| {
      assert s[i..i + |target|][k] == s[i + k];
    }
  }

  /**
   * A prefix in which no occurrence of the target starts is copied unchanged,
   * and replacing continues with the rest.
   */
  lemma {:induction false} ReplaceAllKeepsPrefix(pre: string, rest: string, target: string, replacement: string)
    requires target != []
    requires forall i: nat :: i < |pre| ==> !OccursAt(pre + rest, target, i)
    ensures ReplaceAll(pre + rest, target, replacement) == pre + ReplaceAll(rest, target, replacement)
    decreases |pre|
  {
    if pre == [] {
      assert pre + rest == rest;
    } else {
      var s := pre + rest;
      PrefixIsOccurrenceAtZero(s, target);
      assert s[1..] == pre[1..] + rest;
      NoOccurrenceInShorterPrefix(pre, rest, target);
      ReplaceAllKeepsPrefix(pre[1..], rest, target, replacement);
      var tail := ReplaceAll(rest, target, replacement);
      assert [pre[0]] + (pre[1..] + tail) == pre + tail;
    }
  }

  /** The hypothesis of `ReplaceAllKeepsPrefix` carries over from `pre` to its tail. */
  lemma NoOccurrenceInShorterPrefix(pre: string, rest: string, target: string)
    requires pre != []
    requires forall i: nat :: i < |pre| ==> !OccursAt(pre + rest, target, i)
    ensures forall i: nat :: i < |pre[1..]| ==> !OccursAt(pre[1..] + rest, target, i)
  {
    var s := pre + rest;
    assert s[1..] == pre[1..] + rest;
    forall i: nat | i < |pre[1..]|
      ensures !OccursAt(pre[1..] + rest, target, i)
    {
      if OccursAt(pre[1..] + rest, target, i) {
        OccursInTail(s, target, i);
      }
    }
  }

  /** An occurrence at the front is replaced and replacing continues after it. */
  lemma ReplaceAllAtFront(rest: string, target: string, replacement: string)
    requires target != []
    ensures ReplaceAll(target + rest, target, replacement) == replacement + ReplaceAll(rest, target, replacement)
  {
    assert (target + rest)[|target|..] == rest;
  }

  /**
   * `String.format(template, args...)` for templates whose only conversion is
   * `%s`: each `%s` is replaced by the next argument, surplus arguments are
   * ignored, a `%s` with no argument left fails (Java's
   * MissingFormatArgumentException) and any other conversion fails.
   */
  function Format(template: string, args: seq<string>): Option<string>
    decreases |template|
  {
    if template == [] then
      Some([])
    else if template[0] == '%' then
      if |template| >= 2 && template[1] == 's' && args != [] then
        Prepend(args[0], Format(template[2..], args[1..]))
      else
        None
    else
      Prepend([template[0]], Format(template[1..], args))
  }

  /** Text with no `%` in it is copied to the output as it stands. */
  lemma {:induction false} FormatLiteral(lit: string, rest: string, args: seq<string>)
    requires '%' !in lit
    ensures Format(lit + rest, args) == Prepend(lit, Format(rest, args))
    decreases |lit|
  {
    if lit != [] {
      assert (lit + rest)[0] == lit[0];
      assert (lit + rest)[1..] == lit[1..] + rest;
      FormatLiteral(lit[1..], rest, args);
      if Format(rest, args).Some? {
        var x := Format(rest, args).value;
        assert [lit[0]] + (lit[1..] + x) == lit + x;
      }
    } else {
      assert lit + rest == rest;
      if Format(rest, args).Some? {
        assert lit + Format(rest, args).value == Format(rest, args).value;
      }
    }
  }

  /** A `%s` at the front takes the first argument. */
  lemma FormatPlaceholder(rest: string, arg: string, args: seq<string>)
    ensures Format("%s" + rest, [arg] + args) == Prepend(arg, Format(rest, args))
  {
    assert ("%s" + rest)[2..] == rest;
    assert ([arg] + args)[1..] == args;
  }

  /**
   * A template of two `%s` conversions, each followed by conversion-free text,
   * is filled with its two arguments in order.
   */
  lemma FormatTwoConversions(lit: string, tail: string, x: string, y: string)
    requires '%' !in lit && '%' !in tail
    ensures Format("%s" + lit + "%s" + tail, [x, y]) == Some(x + lit + y + tail)
  {
    var template := "%s" + lit + "%s" + tail;
    assert template == "%s" + (lit + ("%s" + (tail + [])));
    assert [x, y] == [x] + [y];
    assert [y] == [y] + [];
    FormatPlaceholder(lit + ("%s" + (tail + [])), x, [y]);
    FormatLiteral(lit, "%s" + (tail + []), [y]);
    FormatPlaceholder(tail + [], y, []);
    FormatLiteral(tail, [], []);
    assert x + (lit + (y + (tail + []))) == x + lit + y + tail;
  }

  /** A `%s` with no argument left makes the whole format fail. */
  lemma FormatMissingArgument(rest: string)
    ensures Format("%s" + rest, []) == None
  {
  }
}
