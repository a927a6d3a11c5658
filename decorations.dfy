/**
 * The pure string logic of src/decorations.ts: the inline message built from the
 * message template and an evaluation, and the CSS fragments `setDecorationStyle`
 * assembles from the settings.
 */
module Decorations {
  import opened Wrappers
  import opened Types
  import opened Text

  /** The template variable replaced by the evaluation's result. */
  const ResultVar := "$result"
  /** The template variable replaced by the (possibly shortened) source. */
  const SourceVar := "$source"
  /** What a shortened source ends with. */
  const Ellipsis := "..."

  // ---------------------------------------------------------------------------------
  // evaluationToInlineMessage

  /** `Math.max(0, n)`: how JavaScript's `substring` clamps a negative end. */
  function Clamp(n: int): nat {
    if n < 0 then 0 else n
  }

  /**
   * The source shown in a message, as written: a source longer than `maxChars` keeps
   * all but its last three characters and gains an ellipsis.
   */
  function TruncateSource(source: string, maxChars: int): (shown: string)
    ensures |source| <= maxChars ==> shown == source
    ensures |source| > maxChars ==>
      && |shown| >= |Ellipsis| && shown[|shown| - |Ellipsis|..] == Ellipsis
      && shown[..|shown| - |Ellipsis|] <= source
  {
    if |source| > maxChars then source[..Clamp(|source| - 3)] + Ellipsis else source
  }

  /**
   * Substitution in a template other than the bare `$result`: the first `$result`
   * becomes the result; then, when the template mentions `$source`, the first
   * `$source` of that message becomes the shown source.
   */
  function Render(template: string, result: string, shown: string): string {
    var message := ReplaceFirst(template, ResultVar, result);
    if Contains(template, SourceVar) then ReplaceFirst(message, SourceVar, shown) else message
  }

  /** The message for a present result: the result itself for the bare `$result` template. */
  function Message(template: string, result: string, shown: string): string {
    if template == ResultVar then result else Render(template, result, shown)
  }

  /**
   * `evaluationToInlineMessage(template, evaluation)` with the `messageMaxChars`
   * setting passed in: nothing for a missing result or a zero limit, the result itself
   * for the bare `$result` template, otherwise the rendered template.
   */
  function EvaluationToInlineMessage(template: string, evaluation: Evaluation, maxChars: int): (message: Option<string>)
    ensures message.None? <==> evaluation.result.None? || maxChars == 0
    ensures message.Some? && template == ResultVar ==> message.value == evaluation.result.value
  {
    if evaluation.result.None? || maxChars == 0 then None
    else Some(Message(template, evaluation.result.value, TruncateSource(evaluation.source, maxChars)))
  }

  /** The shortcut for the bare `$result` template yields what substitution would. */
  lemma ResultShortcutAgrees(result: string, shown: string)
    ensures Render(ResultVar, result, shown) == result
  {
    assert OccursAt(ResultVar, ResultVar, 0);
    assert !Contains(ResultVar, SourceVar) by {
      assert IndexOf(ResultVar, SourceVar).None? by {
        assert ResultVar[0..|SourceVar|] == ResultVar && SourceVar[1] != ResultVar[1];
        assert !OccursAt(ResultVar, SourceVar, 0);
      }
    }
  }

  /**
   * In a template without `$source`, the first `$result` is replaced by the result and
   * the rest of the template is kept; no source text is added.
   */
  lemma ResultSubstitutedOnce(template: string, evaluation: Evaluation, maxChars: int, k: nat)
    requires evaluation.result.Some? && maxChars != 0
    requires OccursAt(template, ResultVar, k) && forall j :: 0 <= j < k ==> !OccursAt(template, ResultVar, j)
    requires forall j :: !OccursAt(template, SourceVar, j)
    ensures EvaluationToInlineMessage(template, evaluation, maxChars)
      == Some(template[..k] + evaluation.result.value + template[k + |ResultVar|..])
  {
    if template == ResultVar {
      assert k == 0 by {
        assert OccursAt(template, ResultVar, 0);
      }
      assert template[..0] + evaluation.result.value + template[|ResultVar|..] == evaluation.result.value;
    }
  }

  /** A template with neither variable is shown as it is. */
  lemma PlainTemplateShownAsIs(template: string, evaluation: Evaluation, maxChars: int)
    requires evaluation.result.Some? && maxChars != 0
    requires forall j :: !OccursAt(template, ResultVar, j) && !OccursAt(template, SourceVar, j)
    ensures EvaluationToInlineMessage(template, evaluation, maxChars) == Some(template)
  {
    if template == ResultVar {
      assert OccursAt(template, ResultVar, 0);
    }
  }

  /** The bare `$source` template renders as the shown source. */
  lemma SourceVarRendersShown(result: string, shown: string)
    ensures Render(SourceVar, result, shown) == shown
  {
    assert SourceVar[0..|ResultVar|] == SourceVar && SourceVar[1] != ResultVar[1];
    assert !OccursAt(SourceVar, ResultVar, 0);
    assert IndexOf(SourceVar, ResultVar).None?;
    assert OccursAt(SourceVar, SourceVar, 0);
  }

  /** With the bare `$source` template the message is the shown source, shortened as written. */
  lemma SourceTemplateShowsSource(evaluation: Evaluation, maxChars: int)
    requires evaluation.result.Some? && maxChars != 0
    ensures EvaluationToInlineMessage(SourceVar, evaluation, maxChars) == Some(TruncateSource(evaluation.source, maxChars))
  {
    SourceVarRendersShown(evaluation.result.value, TruncateSource(evaluation.source, maxChars));
  }

  /**
   * A template that mentions `$source` before `$result`, such as `$source = $result`:
   * the first `$result` becomes the result, then the first `$source` becomes the source
   * as shortened, and the text around and between them is kept.
   */
  lemma SourceBeforeResultRendered(template: string, evaluation: Evaluation, maxChars: int, m: nat, k: nat)
    requires evaluation.result.Some? && maxChars != 0
    requires OccursAt(template, SourceVar, m) && forall j :: 0 <= j < m ==> !OccursAt(template, SourceVar, j)
    requires OccursAt(template, ResultVar, k) && forall j :: 0 <= j < k ==> !OccursAt(template, ResultVar, j)
    requires m + |SourceVar| <= k
    ensures EvaluationToInlineMessage(template, evaluation, maxChars)
      == Some(template[..m] + TruncateSource(evaluation.source, maxChars) + template[m + |SourceVar|..k]
              + evaluation.result.value + template[k + |ResultVar|..])
  {
    assert template != ResultVar by {
      assert |template| >= k + |ResultVar| > |ResultVar|;
    }
    RenderSourceBeforeResult(template, evaluation.result.value, TruncateSource(evaluation.source, maxChars), m, k);
  }

  /** Render for a template whose first `$source` comes before its first `$result`. */
  lemma RenderSourceBeforeResult(template: string, result: string, shown: string, m: nat, k: nat)
    requires OccursAt(template, SourceVar, m) && forall j :: 0 <= j < m ==> !OccursAt(template, SourceVar, j)
    requires OccursAt(template, ResultVar, k) && forall j :: 0 <= j < k ==> !OccursAt(template, ResultVar, j)
    requires m + |SourceVar| <= k
    ensures Render(template, result, shown)
      == template[..m] + shown + template[m + |SourceVar|..k] + result + template[k + |ResultVar|..]
  {
    var message := template[..k] + result + template[k + |ResultVar|..];
    ReplaceAtFirst(template, ResultVar, result, k);
    ReplaceAtFirst(template, SourceVar, shown, m);
    SourceSurvivesResult(template, result, shown, m, k);
    ReplaceAtFirst(message, SourceVar, shown, m);
    RenderInTwoSteps(template, result, shown, message);
  }

  /** A template with `$source` renders as its `$result` message with `$source` replaced. */
  lemma RenderInTwoSteps(template: string, result: string, shown: string, message: string)
    requires Contains(template, SourceVar) && ReplaceFirst(template, ResultVar, result) == message
    ensures Render(template, result, shown) == ReplaceFirst(message, SourceVar, shown)
  {
  }

  /**
   * Replacing a `$result` that lies after the first `$source` leaves that `$source`
   * first in the message, and replacing it there puts the shown source between the
   * template's text before it and the rest.
   */
  lemma SourceSurvivesResult(template: string, result: string, shown: string, m: nat, k: nat)
    requires OccursAt(template, SourceVar, m) && forall j :: 0 <= j < m ==> !OccursAt(template, SourceVar, j)
    requires k + |ResultVar| <= |template| && m + |SourceVar| <= k
    ensures var message := template[..k] + result + template[k + |ResultVar|..];
      && OccursAt(message, SourceVar, m)
      && (forall j :: 0 <= j < m ==> !OccursAt(message, SourceVar, j))
      && message[..m] + shown + message[m + |SourceVar|..]
         == template[..m] + shown + template[m + |SourceVar|..k] + result + template[k + |ResultVar|..]
  {
    var message := template[..k] + result + template[k + |ResultVar|..];
    var front := template[..k];
    assert message[..k] == front;
    assert message[m..m + |SourceVar|] == front[m..m + |SourceVar|] == template[m..m + |SourceVar|];
    forall j | 0 <= j < m
      ensures !OccursAt(message, SourceVar, j)
    {
      assert !OccursAt(template, SourceVar, j);
      assert message[j..j + |SourceVar|] == front[j..j + |SourceVar|] == template[j..j + |SourceVar|];
    }
    var before, between, after := template[..m], template[m + |SourceVar|..k], template[k + |ResultVar|..];
    assert message[..m] == front[..m] == before;
    assert front[m + |SourceVar|..] == between;
    assert message[m + |SourceVar|..] == between + result + after;
    assert before + shown + (between + result + after) == before + shown + between + result + after;
  }

  // ---------------------------------------------------------------------------------
  // the shortened source: as written and as intended

  /**
   * As written, shortening never makes a source of three or more characters shorter:
   * dropping three characters and adding a three-character ellipsis keeps its length.
   */
  lemma TruncationKeepsLength(source: string, maxChars: int)
    requires |source| >= |Ellipsis|
    ensures |TruncateSource(source, maxChars)| == |source|
  {
  }

  /** A ten-character source under a limit of five is still shown with ten characters. */
  lemma TruncationExceedsLimit()
    ensures TruncateSource("1234567890", 5) == "1234567..."
    ensures |TruncateSource("1234567890", 5)| > 5
    ensures EvaluationToInlineMessage(SourceVar, Evaluation(Some("3"), "1234567890", 0), 5) == Some("1234567...")
  {
    SourceTemplateShowsSource(Evaluation(Some("3"), "1234567890", 0), 5);
    assert "1234567890"[..7] == "1234567";
  }

  /**
   * The source shortened to the limit, as the setting intends: a source within the
   * limit is kept, a longer one keeps a prefix and ends with the ellipsis so that the
   * whole fits, and below three characters only part of the ellipsis fits.
   */
  function TruncateSourceTo(source: string, maxChars: int): (shown: string)
    ensures |source| <= maxChars ==> shown == source
    ensures |source| > maxChars ==> |shown| == Clamp(maxChars)
    ensures |source| > maxChars >= |Ellipsis| ==>
      shown[..maxChars - |Ellipsis|] <= source && shown[maxChars - |Ellipsis|..] == Ellipsis
  {
    if |source| <= maxChars then source
    else if maxChars >= |Ellipsis| then source[..maxChars - |Ellipsis|] + Ellipsis
    else Ellipsis[..Clamp(maxChars)]
  }

  /** The inline message with the source shortened to the limit. */
  function CorrectedInlineMessage(template: string, evaluation: Evaluation, maxChars: int): (message: Option<string>)
    ensures message.None? <==> evaluation.result.None? || maxChars == 0
  {
    if evaluation.result.None? || maxChars == 0 then None
    else Some(Message(template, evaluation.result.value, TruncateSourceTo(evaluation.source, maxChars)))
  }

  /** With the bare `$source` template, the corrected message never exceeds a positive limit. */
  lemma CorrectedSourceMessageFits(evaluation: Evaluation, maxChars: int)
    requires evaluation.result.Some? && maxChars > 0
    ensures CorrectedInlineMessage(SourceVar, evaluation, maxChars).Some?
    ensures |CorrectedInlineMessage(SourceVar, evaluation, maxChars).value| <= maxChars
  {
    SourceVarRendersShown(evaluation.result.value, TruncateSourceTo(evaluation.source, maxChars));
  }

  // ---------------------------------------------------------------------------------
  // setDecorationStyle

  /** `/^\d+$/.test(s)`: at least one character, all ASCII digits. */
  predicate OnlyDigits(s: string) {
    |s| > 0 && forall k :: 0 <= k < |s| ==> '0' <= s[k] <= '9'
  }

  /** A digits-only setting is a number of pixels; any other value is used as it is. */
  function WithPx(s: string): string {
    if OnlyDigits(s) then s + "px" else s
  }

  /** The unit is added exactly to digits-only values. */
  lemma WithPxChangesOnlyDigits(s: string)
    ensures WithPx(s) != s <==> OnlyDigits(s)
    ensures OnlyDigits(s) ==> WithPx(s) == s + "px"
  {
    if OnlyDigits(s) {
      assert |WithPx(s)| == |s| + 2;
    }
  }

  /** Adding the unit twice adds it once. */
  lemma WithPxIdempotent(s: string)
    ensures WithPx(WithPx(s)) == WithPx(s)
  {
    if OnlyDigits(s) {
      var t := s + "px";
      assert t[|t| - 1] == 'x';
      assert !OnlyDigits(t);
    }
  }

  /** The settings `setDecorationStyle` reads; an unset string setting is empty. */
  datatype StyleSettings = StyleSettings(
    fontFamily: string,
    fontWeight: string,
    fontSize: string,
    fontStyleItalic: bool,
    margin: string,
    padding: string,
    borderRadius: string)

  /** The `border-radius` fragment, `0` when the setting is empty. */
  function BorderRadius(settings: StyleSettings): string {
    "border-radius: " + (if settings.borderRadius != "" then settings.borderRadius else "0")
  }

  /** The four candidate fragments, in order; an unset setting gives an empty fragment. */
  function Fragments(settings: StyleSettings): (fragments: seq<string>)
    ensures |fragments| == 4 && fragments[3] == BorderRadius(settings)
  {
    [ if settings.fontFamily != "" then "font-family:" + settings.fontFamily else ""
    , if settings.fontSize != "" then "font-size:" + WithPx(settings.fontSize) else ""
    , if settings.padding != "" then "padding:" + WithPx(settings.padding) else ""
    , BorderRadius(settings) ]
  }

  /** `.filter((content) => content !== '')`. */
  function NonEmpty(parts: seq<string>): (kept: seq<string>)
    ensures |kept| <= |parts|
    decreases |parts|
  {
    if parts == [] then []
    else (if parts[0] != "" then [parts[0]] else []) + NonEmpty(parts[1..])
  }

  /** The filter keeps exactly the non-empty parts, and a last non-empty part stays last. */
  lemma {:induction false} NonEmptyKeepsExactlyNonEmpty(parts: seq<string>)
    ensures forall x :: x in NonEmpty(parts) <==> x in parts && x != ""
    ensures parts != [] && parts[|parts| - 1] != "" ==>
      NonEmpty(parts) != [] && NonEmpty(parts)[|NonEmpty(parts)| - 1] == parts[|parts| - 1]
    decreases |parts|
  {
    if parts != [] {
      NonEmptyKeepsExactlyNonEmpty(parts[1..]);
      var head := if parts[0] != "" then [parts[0]] else [];
      assert NonEmpty(parts) == head + NonEmpty(parts[1..]);
      assert parts == [parts[0]] + parts[1..];
      if |parts| > 1 {
        assert parts[1..][|parts[1..]| - 1] == parts[|parts| - 1];
      }
    }
  }

  /** Filtering a concatenation filters each side and keeps them in order. */
  lemma {:induction false} NonEmptyAppend(a: seq<string>, b: seq<string>)
    ensures NonEmpty(a + b) == NonEmpty(a) + NonEmpty(b)
    decreases |a|
  {
    if a == [] {
      assert a + b == b;
    } else {
      var ab := a + b;
      assert ab[0] == a[0] && ab[1..] == a[1..] + b;
      NonEmptyAppend(a[1..], b);
      var head := if a[0] != "" then [a[0]] else [];
      assert NonEmpty(ab) == head + NonEmpty(ab[1..]);
      assert NonEmpty(a) == head + NonEmpty(a[1..]);
    }
  }

  /** `additionalStyles`: the non-empty fragments joined with `;`. */
  function AdditionalStyles(settings: StyleSettings): string {
    Join(NonEmpty(Fragments(settings)), ';')
  }

  /** Joined pieces end with the last piece. */
  lemma {:induction false} JoinEndsWithLast(parts: seq<string>, sep: char)
    requires parts != []
    ensures var s := Join(parts, sep);
      var last := parts[|parts| - 1];
      |last| <= |s| && s[|s| - |last|..] == last
    decreases |parts|
  {
    if |parts| > 1 {
      JoinEndsWithLast(parts[1..], sep);
      assert parts[1..][|parts[1..]| - 1] == parts[|parts| - 1];
    }
  }

  /**
   * The style string always ends with the border radius, `border-radius: 0` when the
   * setting is empty, and splitting it on `;` gives back exactly the non-empty
   * fragments in order, as long as no setting contains a `;`.
   */
  lemma AdditionalStylesShape(settings: StyleSettings)
    ensures var s := AdditionalStyles(settings);
      |BorderRadius(settings)| <= |s| && s[|s| - |BorderRadius(settings)|..] == BorderRadius(settings)
    ensures settings.borderRadius == "" ==> BorderRadius(settings) == "border-radius: 0"
    ensures ';' !in settings.fontFamily && ';' !in settings.fontSize && ';' !in settings.padding
            && ';' !in settings.borderRadius ==>
      Split(AdditionalStyles(settings), ';') == NonEmpty(Fragments(settings))
  {
    var fragments := Fragments(settings);
    NonEmptyKeepsExactlyNonEmpty(fragments);
    var kept := NonEmpty(fragments);
    JoinEndsWithLast(kept, ';');
    if ';' !in settings.fontFamily && ';' !in settings.fontSize && ';' !in settings.padding && ';' !in settings.borderRadius {
      NoSemicolonInFragments(settings);
      forall k | 0 <= k < |kept|
        ensures ';' !in kept[k]
      {
        assert kept[k] in kept;
      }
      SplitJoin(kept, ';');
    }
  }

  /** No fragment holds a `;` unless a setting does. */
  lemma NoSemicolonInFragments(settings: StyleSettings)
    requires ';' !in settings.fontFamily && ';' !in settings.fontSize && ';' !in settings.padding
    requires ';' !in settings.borderRadius
    ensures forall x :: x in Fragments(settings) ==> ';' !in x
  {
    assert ';' !in WithPx(settings.fontSize);
    assert ';' !in WithPx(settings.padding);
  }

  /** The `after` attachment options built from the settings. */
  datatype AfterProps = AfterProps(fontStyle: string, fontWeight: string, margin: string, textDecoration: string)

  /**
   * `afterProps`: italic or normal style, the weight as set, a left margin with the
   * digits-only rule applied, and the additional styles smuggled into `textDecoration`.
   */
  function AfterPropsFor(settings: StyleSettings): AfterProps {
    AfterProps(
      if settings.fontStyleItalic then "italic" else "normal",
      settings.fontWeight,
      "0 0 0 " + WithPx(settings.margin),
      "none;" + AdditionalStyles(settings) + ";")
  }

  /**
   * The `after` options: the style is italic exactly when the setting asks for it; the
   * margin is a left margin in pixels for a digits-only setting and the setting itself
   * otherwise; and, as long as no setting contains a `;`, the text decoration splits on
   * `;` into `none`, the non-empty fragments in order, and a final empty declaration.
   */
  lemma AfterPropsShape(settings: StyleSettings)
    ensures AfterPropsFor(settings).fontStyle in {"italic", "normal"}
    ensures AfterPropsFor(settings).fontStyle == "italic" <==> settings.fontStyleItalic
    ensures AfterPropsFor(settings).fontWeight == settings.fontWeight
    ensures var m := AfterPropsFor(settings).margin;
      && StartsWith(m, "0 0 0 ")
      && (OnlyDigits(settings.margin) ==> m[6..] == settings.margin + "px")
      && (!OnlyDigits(settings.margin) ==> m[6..] == settings.margin)
    ensures ';' !in settings.fontFamily && ';' !in settings.fontSize && ';' !in settings.padding
            && ';' !in settings.borderRadius ==>
      Split(AfterPropsFor(settings).textDecoration, ';') == ["none"] + NonEmpty(Fragments(settings)) + [""]
  {
    var props := AfterPropsFor(settings);
    assert "italic" != "normal";
    assert props.margin[..6] == "0 0 0 " && props.margin[6..] == WithPx(settings.margin);
    if ';' !in settings.fontFamily && ';' !in settings.fontSize && ';' !in settings.padding && ';' !in settings.borderRadius {
      NoSemicolonInFragments(settings);
      NonEmptyKeepsExactlyNonEmpty(Fragments(settings));
      DeclarationsSplit(NonEmpty(Fragments(settings)));
    }
  }

  /** `none;` + joined declarations + `;` splits into `none`, the declarations and `""`. */
  lemma DeclarationsSplit(kept: seq<string>)
    requires kept != [] && forall x :: x in kept ==> ';' !in x
    ensures Split("none;" + Join(kept, ';') + ";", ';') == ["none"] + kept + [""]
  {
    var pieces := ["none"] + kept + [""];
    JoinSnoc(["none"] + kept, "", ';');
    assert (["none"] + kept)[1..] == kept;
    assert "none;" + Join(kept, ';') + ";" == Join(pieces, ';');
    forall k | 0 <= k < |pieces|
      ensures ';' !in pieces[k]
    {
      if 0 < k < |pieces| - 1 {
        assert pieces[k] == kept[k - 1] && kept[k - 1] in kept;
      }
    }
    SplitJoin(pieces, ';');
  }
}
