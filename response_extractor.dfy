/** `parseAIResponse` of the diagnosis back end: turns the model's free
    text into four fields by searching its lines for keywords.  Each field
    comes from the first line whose lower-cased text contains the field's
    keyword, and falls back to a default when there is no such line or it
    holds nothing usable; the function never fails. */
module ResponseExtractor {

  import opened Wrappers
  import opened JsText

  const DiagnosisKeyword := "diagnosis"
  const ConfidenceKeyword := "confidence"
  const FindingsKeyword := "additional findings"
  const ActionsKeyword := "recommended actions"

  const DefaultDiagnosis := "Unspecified"
  const DefaultActions := "Consult with a specialist for further evaluation."

  /** The record `parseAIResponse` returns. */
  datatype Extracted = Extracted(
    primaryDiagnosis: string,
    confidenceLevel: nat,
    additionalFindings: seq<string>,
    recommendedActions: string)

  /** `line.toLowerCase().includes(keyword)` */
  predicate Mentions(line: string, keyword: string)
  {
    Includes(Lower(line), keyword)
  }

  /** Index of the first line that mentions `keyword`, or `|lines|`. */
  function FirstMention(lines: seq<string>, keyword: string): (i: nat)
    ensures i <= |lines|
    ensures i < |lines| ==> Mentions(lines[i], keyword)
    ensures forall j :: 0 <= j < i ==> !Mentions(lines[j], keyword)
  {
    if lines == [] then 0
    else if Mentions(lines[0], keyword) then 0
    else 1 + FirstMention(lines[1..], keyword)
  }

  /** `lines.find(line => line.toLowerCase().includes(keyword))` */
  function FindLine(lines: seq<string>, keyword: string): (found: Option<string>)
    ensures found.None? <==> forall j :: 0 <= j < |lines| ==> !Mentions(lines[j], keyword)
    ensures found.Some? ==> found.value == lines[FirstMention(lines, keyword)]
  {
    var i := FirstMention(lines, keyword);
    if i < |lines| then Some(lines[i]) else None
  }

  /** `line?.split(':')[1]`: the second colon-separated piece, if any. */
  function ColonField(line: Option<string>): (piece: Option<string>)
    ensures piece.Some? <==> line.Some? && ':' in line.value
    ensures piece.Some? ==> ':' !in piece.value
  {
    match line
    case None => None
    case Some(l) =>
      var parts := Split(l, ':');
      SplitPieces(l, ':');
      assert ':' in l <==> multiset(l)[':'] > 0;
      if |parts| < 2 then None else Some(parts[1])
  }

  /** `line?.split(':')[1]?.trim() || fallback`: the empty string is falsy,
      so an empty trimmed piece falls back too. */
  function TextField(line: Option<string>, fallback: string): (text: string)
    ensures text == fallback || (text != [] && !IsSpace(text[0]) && !IsSpace(text[|text| - 1]))
    ensures fallback != [] ==> text != []
  {
    match ColonField(line)
    case None => fallback
    case Some(piece) => if Trim(piece) == "" then fallback else Trim(piece)
  }

  /** `parseInt(line?.match(/\d+/)?.[0] || '0')` */
  function NumberField(line: Option<string>): nat
  {
    match line
    case None => 0
    case Some(l) =>
      match FirstDigitRun(l)
      case None => 0
      case Some(run) => ParseDigits(run)
  }

  /** `line?.split(':')[1]?.split(',').map(s => s.trim()) || []`: an array,
      even an empty one, is truthy, so only a missing piece gives `[]`. */
  function ListField(line: Option<string>): (entries: seq<string>)
    ensures entries == [] <==> line.None? || ':' !in line.value
    ensures entries != [] ==> |entries| == multiset(ColonField(line).value)[','] + 1
  {
    match ColonField(line)
    case None => []
    case Some(piece) =>
      SplitPieces(piece, ',');
      TrimAll(Split(piece, ','))
  }

  /** `parseAIResponse(aiResponse)` */
  function ParseAIResponse(aiResponse: string): (r: Extracted)
    ensures r.primaryDiagnosis != [] && r.recommendedActions != []
  {
    var lines := Split(aiResponse, '\n');
    Extracted(
      TextField(FindLine(lines, DiagnosisKeyword), DefaultDiagnosis),
      NumberField(FindLine(lines, ConfidenceKeyword)),
      ListField(FindLine(lines, FindingsKeyword)),
      TextField(FindLine(lines, ActionsKeyword), DefaultActions))
  }

  // ---------------------------------------------------------------------
  // The piece between the first and the second colon
  // ---------------------------------------------------------------------

  /** A line with a colon yields the text between its first colon and the
      next colon (or the end of the line). */
  lemma ColonFieldAt(head: string, piece: string, rest: string)
    requires ':' !in head && ':' !in piece
    requires rest == [] || rest[0] == ':'
    ensures ColonField(Some(head + ":" + piece + rest)) == Some(piece)
  {
    var l := head + ":" + piece + rest;
    var after := Split(piece + rest, ':');
    assert Split(l, ':') == [head] + after by {
      assert l == head + [':'] + (piece + rest);
      SplitConcat(head, ':', piece + rest);
      SplitNone(head, ':');
    }
    assert after[0] == piece by {
      SplitFirst(piece, ':', rest);
    }
  }

  /** A line without a colon yields nothing. */
  lemma ColonFieldNone(line: string)
    requires ':' !in line
    ensures ColonField(Some(line)) == None
  {
    SplitNone(line, ':');
  }

  // ---------------------------------------------------------------------
  // Which line a field comes from
  // ---------------------------------------------------------------------

  /** The first mention is wherever a mention has no mention before it. */
  lemma FirstMentionAt(lines: seq<string>, keyword: string, i: nat)
    requires i <= |lines|
    requires i < |lines| ==> Mentions(lines[i], keyword)
    requires forall j :: 0 <= j < i ==> !Mentions(lines[j], keyword)
    ensures FirstMention(lines, keyword) == i
  {
    var m := FirstMention(lines, keyword);
    if m < |lines| {
      assert Mentions(lines[m], keyword);
    }
    if i < |lines| {
      assert Mentions(lines[i], keyword);
    }
  }

  /** Searching lines `A + B` finds the line `A` yields; only when no line
      of `A` mentions the keyword are the lines of `B` consulted. */
  lemma FindLineAppend(a: seq<string>, b: seq<string>, keyword: string)
    ensures FindLine(a + b, keyword)
         == if FindLine(a, keyword).Some? then FindLine(a, keyword) else FindLine(b, keyword)
  {
    var lines := a + b;
    var i := FirstMention(a, keyword);
    if i < |a| {
      assert lines[i] == a[i];
      FirstMentionAt(lines, keyword, i);
    } else {
      var k := FirstMention(b, keyword);
      if k < |b| {
        assert lines[|a| + k] == b[k];
      }
      forall j | 0 <= j < |a| + k
        ensures !Mentions(lines[j], keyword)
      {
        if j < |a| {
          assert lines[j] == a[j];
        } else {
          assert lines[j] == b[j - |a|];
        }
      }
      FirstMentionAt(lines, keyword, |a| + k);
    }
  }

  /** Some line of `text` mentions `keyword`. */
  predicate HasLine(text: string, keyword: string)
  {
    FindLine(Split(text, '\n'), keyword).Some?
  }

  /** Each field comes from the first line that mentions its keyword: text
      appended after a line break only supplies the fields for which the
      text before it has no line at all, even when that earlier line has no
      colon, no digits or only white space after its colon. */
  lemma FirstMentionDecides(a: string, b: string)
    ensures var whole, first, second := ParseAIResponse(a + "\n" + b), ParseAIResponse(a), ParseAIResponse(b);
      && whole.primaryDiagnosis
         == (if HasLine(a, DiagnosisKeyword) then first.primaryDiagnosis else second.primaryDiagnosis)
      && whole.confidenceLevel
         == (if HasLine(a, ConfidenceKeyword) then first.confidenceLevel else second.confidenceLevel)
      && whole.additionalFindings
         == (if HasLine(a, FindingsKeyword) then first.additionalFindings else second.additionalFindings)
      && whole.recommendedActions
         == (if HasLine(a, ActionsKeyword) then first.recommendedActions else second.recommendedActions)
  {
    var la, lb := Split(a, '\n'), Split(b, '\n');
    assert a + "\n" + b == a + ['\n'] + b;
    SplitConcat(a, '\n', b);
    FindLineAppend(la, lb, DiagnosisKeyword);
    FindLineAppend(la, lb, ConfidenceKeyword);
    FindLineAppend(la, lb, FindingsKeyword);
    FindLineAppend(la, lb, ActionsKeyword);
  }

  /** The extractor never fails: with no line mentioning any keyword every
      field takes its default. */
  lemma DefaultsWithoutKeywords(text: string)
    requires !HasLine(text, DiagnosisKeyword) && !HasLine(text, ConfidenceKeyword)
    requires !HasLine(text, FindingsKeyword) && !HasLine(text, ActionsKeyword)
    ensures ParseAIResponse(text) == Extracted(DefaultDiagnosis, 0, [], DefaultActions)
  {
  }

  // ---------------------------------------------------------------------
  // What each field takes from its line
  // ---------------------------------------------------------------------

  /** `primaryDiagnosis` and `recommendedActions`: the text between the first
      and the second colon of the line, trimmed; the fallback when that is
      empty or white space only. */
  lemma TextFieldAt(head: string, piece: string, rest: string, fallback: string)
    requires ':' !in head && ':' !in piece
    requires rest == [] || rest[0] == ':'
    ensures TextField(Some(head + ":" + piece + rest), fallback)
         == if Trim(piece) == "" then fallback else Trim(piece)
    ensures TextField(Some(head + ":" + piece + rest), fallback) == fallback
        <==> fallback == Trim(piece) || forall k :: 0 <= k < |piece| ==> IsSpace(piece[k])
  {
    ColonFieldAt(head, piece, rest);
  }

  /** A line without a colon gives the fallback. */
  lemma TextFieldWithoutColon(line: string, fallback: string)
    requires ':' !in line
    ensures TextField(Some(line), fallback) == fallback
  {
    ColonFieldNone(line);
  }

  /** `confidenceLevel`: the value of the first maximal run of digits
      anywhere in the line, before or after the colon, unclamped. */
  lemma NumberFieldAt(pre: string, run: string, post: string)
    requires forall k :: 0 <= k < |pre| ==> !IsDigit(pre[k])
    requires run != [] && AllDigits(run)
    requires post == [] || !IsDigit(post[0])
    ensures NumberField(Some(pre + run + post)) == ParseDigits(run)
  {
    FirstDigitRunAt(pre, run, post);
  }

  /** A line without digits gives 0. */
  lemma NumberFieldWithoutDigits(line: string)
    requires forall k :: 0 <= k < |line| ==> !IsDigit(line[k])
    ensures NumberField(Some(line)) == 0
  {
  }

  /** `additionalFindings`: one entry more than there are commas between
      the first and second colon, each entry the trimmed text between two
      commas, left to right. */
  lemma ListFieldAt(head: string, piece: string, rest: string)
    requires ':' !in head && ':' !in piece
    requires rest == [] || rest[0] == ':'
    ensures var findings := ListField(Some(head + ":" + piece + rest));
      && |findings| == |Split(piece, ',')| == multiset(piece)[','] + 1
      && (forall k :: 0 <= k < |findings| ==> findings[k] == Trim(Split(piece, ',')[k]))
      && Join(Split(piece, ','), ',') == piece
  {
    ColonFieldAt(head, piece, rest);
    SplitPieces(piece, ',');
    JoinSplit(piece, ',');
  }

  /** A line that ends with its only colon yields one empty finding, not
      none. */
  lemma ListFieldOfBareLabel(head: string)
    requires ':' !in head
    ensures ListField(Some(head + ":")) == [""]
  {
    ColonFieldAt(head, "", "");
    assert head + ":" + "" + "" == head + ":";
    SplitNone("", ',');
    TrimAt("", "", "");
  }

  /** A line without a colon yields no findings. */
  lemma ListFieldWithoutColon(line: string)
    requires ':' !in line
    ensures ListField(Some(line)) == []
  {
    ColonFieldNone(line);
  }
}
