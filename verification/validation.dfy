/**
 * The validator of the POST /time-entries handler: a pure check of a
 * request that collects one message per offending field, in the order
 * date, duration, project, without stopping at the first failure.
 */
module Validation {
  import opened Options
  import opened Int32Arith
  import opened Text

  /** The request body; `date` and `project` are nullable strings. */
  datatype TimeEntryRequest = TimeEntryRequest(date: Option<string>, durationMinutes: Int32, project: Option<string>)

  /**
   * The four ways a request can fail, one constructor per message the
   * handler can add to its error list.
   */
  datatype FieldError = DateRequired | DateInvalid | DurationNotPositive | ProjectRequired {

    /** The exact text the handler sends for this error. */
    function Message(): string {
      match this
      case DateRequired => "date is required"
      case DateInvalid => "date must be a valid ISO 8601 date (e.g., 2025-10-07)"
      case DurationNotPositive => "durationMinutes must be greater than 0"
      case ProjectRequired => "project is required and cannot be empty"
    }

    /** The field the error reports on, numbered in checking order: date 0, duration 1, project 2. */
    function FieldRank(): nat {
      match this
      case DateRequired | DateInvalid => 0
      case DurationNotPositive => 1
      case ProjectRequired => 2
    }
  }

  /**
   * The requests the handler accepts. `parses` stands for the date parser
   * (DateOnly.TryParse), whose internals are not modelled.
   */
  predicate Acceptable(req: TimeEntryRequest, parses: string -> bool) {
    && !IsNullOrWhiteSpace(req.date)
    && parses(req.date.value)
    && req.durationMinutes > 0
    && !IsNullOrWhiteSpace(req.project)
  }

  /**
   * What a correct error list for `req` is, stated field by field: at most
   * one error per field, in field order, and each error present exactly when
   * its condition holds.
   */
  predicate ReportsExactly(req: TimeEntryRequest, parses: string -> bool, errors: seq<FieldError>) {
    && (forall i, j :: 0 <= i < j < |errors| ==> errors[i].FieldRank() < errors[j].FieldRank())
    && (DateRequired in errors <==> IsNullOrWhiteSpace(req.date))
    && (DateInvalid in errors <==> !IsNullOrWhiteSpace(req.date) && !parses(req.date.value))
    && (DurationNotPositive in errors <==> req.durationMinutes <= 0)
    && (ProjectRequired in errors <==> IsNullOrWhiteSpace(req.project))
  }

  /** The date check: "required" when blank, otherwise "invalid" when the parser refuses it. */
  function DateErrors(date: Option<string>, parses: string -> bool): (errors: seq<FieldError>)
    ensures |errors| <= 1
    ensures forall i :: 0 <= i < |errors| ==> errors[i].FieldRank() == 0
    ensures DateRequired in errors <==> IsNullOrWhiteSpace(date)
    ensures DateInvalid in errors <==> !IsNullOrWhiteSpace(date) && !parses(date.value)
    ensures DurationNotPositive !in errors && ProjectRequired !in errors
  {
    if IsNullOrWhiteSpace(date) then [DateRequired]
    else if !parses(date.value) then [DateInvalid]
    else []
  }

  /** Three lists of at most one error each, of ranks 0, 1 and 2, concatenate to an ordered list. */
  lemma ConcatOrdered(a: seq<FieldError>, b: seq<FieldError>, c: seq<FieldError>)
    requires |a| <= 1 && |b| <= 1 && |c| <= 1
    requires forall i :: 0 <= i < |a| ==> a[i].FieldRank() == 0
    requires forall i :: 0 <= i < |b| ==> b[i].FieldRank() == 1
    requires forall i :: 0 <= i < |c| ==> c[i].FieldRank() == 2
    ensures var l := a + b + c;
            forall i, j :: 0 <= i < j < |l| ==> l[i].FieldRank() < l[j].FieldRank()
  {
    var l := a + b + c;
    forall i | 0 <= i < |l|
      ensures l[i].FieldRank() == if i < |a| then 0 else if i < |a| + |b| then 1 else 2
    {
      if i < |a| {
        assert l[i] == a[i];
      } else if i < |a| + |b| {
        assert l[i] == b[i - |a|];
      } else {
        assert l[i] == c[i - |a| - |b|];
      }
    }
  }

  /**
   * The validator. A missing date never also gets the format message; the
   * duration and project checks run whatever the date's outcome.
   */
  function Validate(req: TimeEntryRequest, parses: string -> bool): (errors: seq<FieldError>)
    ensures ReportsExactly(req, parses, errors)
    ensures |errors| <= 3
    ensures errors == [] <==> Acceptable(req, parses)
  {
    var dateErrors := DateErrors(req.date, parses);
    var durationErrors := if req.durationMinutes <= 0 then [DurationNotPositive] else [];
    var projectErrors := if IsNullOrWhiteSpace(req.project) then [ProjectRequired] else [];
    ConcatOrdered(dateErrors, durationErrors, projectErrors);
    dateErrors + durationErrors + projectErrors
  }

  lemma HeadIsMember(s: seq<FieldError>)
    requires s != []
    ensures s[0] in s
  {
  }

  /**
   * Two error lists, each strictly ordered by field and holding the same
   * errors, are the same list.
   */
  lemma {:induction false} OrderedListsEqual(a: seq<FieldError>, b: seq<FieldError>)
    requires forall i, j :: 0 <= i < j < |a| ==> a[i].FieldRank() < a[j].FieldRank()
    requires forall i, j :: 0 <= i < j < |b| ==> b[i].FieldRank() < b[j].FieldRank()
    requires forall m :: m in a <==> m in b
    ensures a == b
    decreases |a|
  {
    if a != [] {
      assert b != [] by { assert a[0] in b; }
      assert b[0] in a;
      assert a[0] in b;
      var i :| 0 <= i < |a| && a[i] == b[0];
      var j :| 0 <= j < |b| && b[j] == a[0];
      assert a[0].FieldRank() <= a[i].FieldRank() == b[0].FieldRank();
      assert b[0].FieldRank() <= b[j].FieldRank() == a[0].FieldRank();
      assert a[0] == b[0];
      forall m
        ensures m in a[1..] <==> m in b[1..]
      {
        if m in a[1..] {
          var k :| 0 <= k < |a| - 1 && a[1..][k] == m;
          assert a[0].FieldRank() < a[k + 1].FieldRank();
          assert m in b && m != b[0];
          var l :| 0 <= l < |b| && b[l] == m;
          assert b[1..][l - 1] == m;
        }
        if m in b[1..] {
          var k :| 0 <= k < |b| - 1 && b[1..][k] == m;
          assert b[0].FieldRank() < b[k + 1].FieldRank();
          assert m in a && m != a[0];
          var l :| 0 <= l < |a| && a[l] == m;
          assert a[1..][l - 1] == m;
        }
      }
      OrderedListsEqual(a[1..], b[1..]);
      assert a == [a[0]] + a[1..];
      assert b == [b[0]] + b[1..];
    } else {
      if b != [] {
        HeadIsMember(b);
        assert false;
      }
    }
  }

  /**
   * The field-by-field description pins the error list down completely:
   * Validate returns the only list that satisfies it.
   */
  lemma ValidateIsTheOnlyReport(req: TimeEntryRequest, parses: string -> bool, errors: seq<FieldError>)
    requires ReportsExactly(req, parses, errors)
    ensures errors == Validate(req, parses)
  {
    var v := Validate(req, parses);
    forall e
      ensures e in errors <==> e in v
    {
      match e
      case DateRequired =>
      case DateInvalid =>
      case DurationNotPositive =>
      case ProjectRequired =>
    }
    OrderedListsEqual(errors, v);
  }

  /** The response body's error list: the messages of the errors, in order. */
  function Messages(errors: seq<FieldError>): seq<string> {
    seq(|errors|, i requires 0 <= i < |errors| => errors[i].Message())
  }

  /** Distinct errors have distinct texts, so the response body identifies the errors. */
  lemma MessageInjective(e1: FieldError, e2: FieldError)
    requires e1.Message() == e2.Message()
    ensures e1 == e2
  {
  }

  /** An error's text is in the response body exactly when the error is in the list. */
  lemma MessageInBody(errors: seq<FieldError>, e: FieldError)
    ensures e.Message() in Messages(errors) <==> e in errors
  {
    var texts := Messages(errors);
    if e in errors {
      var k :| 0 <= k < |errors| && errors[k] == e;
      assert texts[k] == e.Message();
    }
    if e.Message() in texts {
      var k :| 0 <= k < |texts| && texts[k] == e.Message();
      MessageInjective(errors[k], e);
    }
  }
}
