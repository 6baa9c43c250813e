/**
 * `format_defs`: the reply text for a lookup. The command name differs
 * between the two deployments (`/wtf`, `/acronym`), so it is a parameter.
 */
module Formatter {
  import opened Text
  import opened Store

  /** The reply when a term has no expansions yet. */
  function NothingYet(command: string, t: string): string {
    "Nothing for *" + t + "* yet. Try `" + command + " add` to submit one."
  }

  /** The first line of a nonempty reply. */
  function Header(t: string, n: nat): string {
    "*" + t + "* has " + NatToString(n) + " meaning(s):"
  }

  /** The line for the `i`-th expansion, counting from 1. */
  function Line(i: nat, e: string): string {
    NatToString(i) + ". " + e
  }

  function NumberedLines(exps: seq<string>): (r: seq<string>)
    ensures |r| == |exps|
  {
    seq(|exps|, k requires 0 <= k < |exps| => Line(k + 1, exps[k]))
  }

  /** The text `format_defs(term, exps)` returns. */
  function DefsText(command: string, term: string, exps: seq<string>): string {
    var t := Normalize(term);
    if exps == [] then NothingYet(command, t)
    else Join("\n", [Header(t, |exps|)] + NumberedLines(exps))
  }

  /** `format_defs`: builds the list of lines one expansion at a time and
      joins them with line feeds. */
  method FormatDefs(command: string, term: string, exps: seq<string>) returns (text: string)
    ensures text == DefsText(command, term, exps)
  {
    var t := Normalize(term);
    if |exps| == 0 {
      return NothingYet(command, t);
    }
    var lines := [Header(t, |exps|)];
    for i := 0 to |exps|
      invariant |lines| == i + 1 && lines[0] == Header(t, |exps|)
      invariant forall k :: 0 <= k < i ==> lines[k + 1] == Line(k + 1, exps[k])
    {
      lines := lines + [NatToString(i + 1) + ". " + exps[i]];
    }
    assert lines == [Header(t, |exps|)] + NumberedLines(exps);
    text := Join("\n", lines);
  }

  /** With no expansions the reply names the normalised term and the add
      command. */
  lemma {:induction false} FormatNothingYet(command: string, term: string)
    ensures DefsText(command, term, []) ==
            "Nothing for *" + Normalize(term) + "* yet. Try `" + command + " add` to submit one."
  {
  }

  lemma {:induction false} NoLineFeedInNumber(n: nat)
    ensures '\n' !in NatToString(n)
  {
  }

  lemma {:induction false} HeaderIsOneLine(t: string, n: nat)
    requires '\n' !in t
    ensures '\n' !in Header(t, n)
  {
    NoLineFeedInNumber(n);
  }

  lemma {:induction false} NumberedLinesAreLines(exps: seq<string>)
    requires forall k :: 0 <= k < |exps| ==> '\n' !in exps[k]
    ensures forall k :: 0 <= k < |exps| ==> '\n' !in NumberedLines(exps)[k]
  {
    forall k | 0 <= k < |exps| ensures '\n' !in NumberedLines(exps)[k] {
      NoLineFeedInNumber(k + 1);
    }
  }

  /** Read line by line, a nonempty reply is the header "*T* has N
      meaning(s):" and then one line "i. e_i" per expansion in the given
      order, provided neither the term nor an expansion spans lines. */
  lemma {:induction false} FormatLines(command: string, term: string, exps: seq<string>)
    requires exps != []
    requires '\n' !in Normalize(term)
    requires forall k :: 0 <= k < |exps| ==> '\n' !in exps[k]
    ensures var lines := SplitOn(DefsText(command, term, exps), '\n');
            |lines| == |exps| + 1 &&
            lines[0] == "*" + Normalize(term) + "* has " + NatToString(|exps|) + " meaning(s):" &&
            forall k :: 0 <= k < |exps| ==> lines[k + 1] == NatToString(k + 1) + ". " + exps[k]
  {
    hide Normalize, NatToString, SplitOn;
    var t := Normalize(term);
    var body := NumberedLines(exps);
    var parts := [Header(t, |exps|)] + body;
    HeaderIsOneLine(t, |exps|);
    NumberedLinesAreLines(exps);
    assert forall k :: 0 <= k < |parts| ==> '\n' !in parts[k] by {
      forall k | 0 <= k < |parts| ensures '\n' !in parts[k] {
        if k > 0 {
          assert parts[k] == body[k - 1];
        }
      }
    }
    SplitJoin(parts, '\n');
    assert DefsText(command, term, exps) == Join("\n", parts);
  }

  /** The reply depends on the term only through its normalised form. */
  lemma {:induction false} FormatIgnoresCaseAndPadding(command: string, a: string, t: string, b: string, exps: seq<string>)
    requires AllSpace(a) && AllSpace(b)
    ensures DefsText(command, a + t + b, exps) == DefsText(command, t, exps)
    ensures DefsText(command, Lower(t), exps) == DefsText(command, t, exps)
    ensures DefsText(command, Strip(t), exps) == DefsText(command, t, exps)
  {
    NormalizeVariants(a, t, b);
    SameKeySameText(command, a + t + b, t, exps);
    SameKeySameText(command, Lower(t), t, exps);
    SameKeySameText(command, Strip(t), t, exps);
  }

  lemma {:induction false} SameKeySameText(command: string, s: string, t: string, exps: seq<string>)
    requires Normalize(s) == Normalize(t)
    ensures DefsText(command, s, exps) == DefsText(command, t, exps)
  {
  }
}
