/** The validator (mdkv/core/validate.py): three ordered rules, each an ERROR issue, and a
    failure carrying the "; "-joined messages whenever an ERROR is found. */
module Validate {
  import opened Wrappers
  import opened Text
  import opened Model

  datatype Level = ERROR | WARN

  datatype ValidationIssue = ValidationIssue(level: Level, message: string)

  /** The rule messages, in checking order. */
  function RuleMessages(): seq<string> {
    ["title is required", "at least one author is required", "primary track is required"]
  }

  /** Which of the rules the document breaks, in the order of `RuleMessages`. */
  function Broken(doc: Document): (b: seq<bool>)
    reads doc
    ensures |b| == 3
  {
    [doc.title == "", doc.authors == [], "primary" !in doc.tracks]
  }

  /** The elements of `xs` whose flag in `keep` is set, in order. */
  function Masked(xs: seq<string>, keep: seq<bool>): (r: seq<string>)
    requires |xs| == |keep|
    ensures |r| <= |xs|
  {
    if xs == [] then [] else (if keep[0] then [xs[0]] else []) + Masked(xs[1..], keep[1..])
  }

  lemma {:induction false} MaskedEmpty(xs: seq<string>, keep: seq<bool>)
    requires |xs| == |keep|
    ensures Masked(xs, keep) == [] <==> forall i :: 0 <= i < |keep| ==> !keep[i]
  {
    if xs != [] {
      MaskedEmpty(xs[1..], keep[1..]);
      assert forall i :: 1 <= i < |keep| ==> keep[i] == keep[1..][i - 1];
    }
  }

  lemma {:induction false} MaskedAll(xs: seq<string>, keep: seq<bool>)
    requires |xs| == |keep|
    requires forall i :: 0 <= i < |keep| ==> keep[i]
    ensures Masked(xs, keep) == xs
  {
    if xs != [] {
      MaskedAll(xs[1..], keep[1..]);
    }
  }

  lemma {:induction false} MaskedOne(xs: seq<string>, keep: seq<bool>, k: nat)
    requires |xs| == |keep| && k < |keep|
    requires forall i :: 0 <= i < |keep| ==> (keep[i] <==> i == k)
    ensures Masked(xs, keep) == [xs[k]]
  {
    if k == 0 {
      MaskedEmpty(xs[1..], keep[1..]);
    } else {
      MaskedOne(xs[1..], keep[1..], k - 1);
    }
  }

  /** `Masked` on three elements, written out. */
  lemma Masked3(xs: seq<string>, keep: seq<bool>)
    requires |xs| == |keep| == 3
    ensures Masked(xs, keep) == (if keep[0] then [xs[0]] else []) + (if keep[1] then [xs[1]] else [])
                                + (if keep[2] then [xs[2]] else [])
  {
    assert Masked(xs[1..], keep[1..]) == (if keep[1] then [xs[1]] else []) + Masked(xs[2..], keep[2..]);
    assert Masked(xs[2..], keep[2..]) == (if keep[2] then [xs[2]] else []) + Masked(xs[3..], keep[3..]);
  }

  function Messages(issues: seq<ValidationIssue>): seq<string> {
    seq(|issues|, i requires 0 <= i < |issues| => issues[i].message)
  }

  lemma MessagesAppend(issues: seq<ValidationIssue>, issue: ValidationIssue)
    ensures Messages(issues + [issue]) == Messages(issues) + [issue.message]
  {
    assert |Messages(issues + [issue])| == |Messages(issues) + [issue.message]|;
  }

  /** `[i for i in issues if i.level == "ERROR"]` */
  function Errors(issues: seq<ValidationIssue>): (r: seq<ValidationIssue>)
    ensures forall i :: 0 <= i < |r| ==> r[i].level == ERROR
    ensures forall x :: x in r <==> x in issues && x.level == ERROR
    ensures (forall i :: 0 <= i < |issues| ==> issues[i].level == ERROR) ==> r == issues
  {
    if issues == [] then []
    else (if issues[0].level == ERROR then [issues[0]] else []) + Errors(issues[1..])
  }

  /** The filter keeps the order of the issues: it distributes over concatenation. */
  lemma {:induction false} ErrorsAppend(a: seq<ValidationIssue>, b: seq<ValidationIssue>)
    ensures Errors(a + b) == Errors(a) + Errors(b)
  {
    if a != [] {
      assert (a + b)[1..] == a[1..] + b;
      ErrorsAppend(a[1..], b);
    } else {
      assert a + b == b;
    }
  }

  /** Lines 22-28: the issues, one ERROR per broken rule, in rule order. */
  method CollectIssues(doc: Document) returns (issues: seq<ValidationIssue>)
    ensures forall i :: 0 <= i < |issues| ==> issues[i].level == ERROR
    ensures Messages(issues) == Masked(RuleMessages(), Broken(doc))
    ensures ValidationIssue(ERROR, "title is required") in issues <==> doc.title == ""
    ensures ValidationIssue(ERROR, "at least one author is required") in issues <==> doc.authors == []
    ensures ValidationIssue(ERROR, "primary track is required") in issues <==> "primary" !in doc.tracks
  {
    issues := [];
    if doc.title == "" {
      MessagesAppend(issues, ValidationIssue(ERROR, "title is required"));
      issues := issues + [ValidationIssue(ERROR, "title is required")];
    }
    if doc.authors == [] {
      MessagesAppend(issues, ValidationIssue(ERROR, "at least one author is required"));
      issues := issues + [ValidationIssue(ERROR, "at least one author is required")];
    }
    if "primary" !in doc.tracks {
      MessagesAppend(issues, ValidationIssue(ERROR, "primary track is required"));
      issues := issues + [ValidationIssue(ERROR, "primary track is required")];
    }
    Masked3(RuleMessages(), Broken(doc));
  }

  /** `validate_document`: fails exactly when a rule is broken, with the broken rules' messages
      joined by "; " in rule order; otherwise returns the (necessarily empty) issue list.
      It has no `modifies` clause: validation never changes the document. */
  method ValidateDocument(doc: Document) returns (r: Result<seq<ValidationIssue>, Error>)
    ensures r.Err? <==> doc.title == "" || doc.authors == [] || "primary" !in doc.tracks
    ensures r.Err? ==> r.error == ValidationError(Join(Masked(RuleMessages(), Broken(doc)), "; "))
    ensures r.Ok? ==> r.value == []
  {
    var issues := CollectIssues(doc);
    var errors := Errors(issues);
    assert errors == issues;
    MaskedEmpty(RuleMessages(), Broken(doc));
    assert |Messages(issues)| == |issues|;
    if |errors| > 0 {
      return Err(ValidationError(Join(Messages(errors), "; ")));
    }
    return Ok(issues);
  }

  /** The message of a document that breaks every rule. */
  lemma AllRulesBrokenMessage()
    ensures Join(Masked(RuleMessages(), [true, true, true]), "; ")
            == "title is required" + "; " + "at least one author is required" + "; " + "primary track is required"
  {
    MaskedAll(RuleMessages(), [true, true, true]);
    var m := RuleMessages();
    assert m[1..][1..] == [m[2]];
    assert Join(m[1..], "; ") == m[1] + "; " + m[2];
    assert Join(m, "; ") == m[0] + "; " + (m[1] + "; " + m[2]);
  }

  /** A broken rule alone gives its message alone. */
  lemma SingleRuleMessage(k: nat)
    requires k < 3
    ensures Join(Masked(RuleMessages(), seq(3, i => i == k)), "; ") == RuleMessages()[k]
  {
    MaskedOne(RuleMessages(), seq(3, i => i == k), k);
  }
}
