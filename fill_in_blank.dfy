/** `FillInBlankQuestion`: the question text is cut into text parts and
    blanks, every blank is bound to an answer slot, and the results are
    shown per blank and as a whole. */
module FillInBlank {
  import opened Wrappers
  import opened Json
  import Text

  /** A blank: a non-empty run of underscores. */
  predicate IsRun(p: string)
  {
    |p| > 0 && forall k :: 0 <= k < |p| ==> p[k] == '_'
  }

  /** Text between blanks: no underscore at all. */
  predicate IsText(p: string)
  {
    forall k :: 0 <= k < |p| ==> p[k] != '_'
  }

  /** Length of the longest prefix of `s` without an underscore. */
  function TextLength(s: string): (n: nat)
    ensures n <= |s| && IsText(s[..n]) && (n < |s| ==> s[n] == '_')
  {
    if |s| == 0 || s[0] == '_' then 0
    else
      var n := 1 + TextLength(s[1..]);
      assert s[..n] == [s[0]] + s[1..][..n - 1];
      n
  }

  /** Length of the longest prefix of `s` made of underscores. */
  function RunLength(s: string): (n: nat)
    ensures n <= |s| && (forall k :: 0 <= k < n ==> s[k] == '_') && (n < |s| ==> s[n] != '_')
  {
    if |s| == 0 || s[0] != '_' then 0 else 1 + RunLength(s[1..])
  }

  function Concat(parts: seq<string>): string
  {
    if parts == [] then "" else parts[0] + Concat(parts[1..])
  }

  /** The shape of `text.split(/(_+)/g)`: pieces without underscores at
      even positions, the underscore runs (kept by the capturing group) at
      odd positions, and every piece between two runs non-empty, so the
      runs are maximal. */
  predicate Alternates(parts: seq<string>)
  {
    && |parts| % 2 == 1
    && (forall i :: 0 <= i < |parts| && i % 2 == 0 ==> IsText(parts[i]))
    && (forall i :: 0 <= i < |parts| && i % 2 == 1 ==> IsRun(parts[i]))
    && (forall i :: 0 < i < |parts| - 1 && i % 2 == 0 ==> parts[i] != "")
  }

  lemma AlternatesCons(a: string, r: string, rest: seq<string>)
    requires IsText(a) && IsRun(r) && Alternates(rest)
    requires |rest| > 1 ==> rest[0] != ""
    ensures Alternates([a, r] + rest)
  {
    var parts := [a, r] + rest;
    forall i | 2 <= i < |parts|
      ensures parts[i] == rest[i - 2]
    {
    }
  }

  /** Where the split cuts: the piece before the first run, the run, and
      the rest, which starts with a non-underscore if anything. */
  lemma Cut(text: string, i: nat, j: nat)
    requires i == TextLength(text) < |text|
    requires j == i + RunLength(text[i..])
    ensures i < j <= |text|
    ensures IsText(text[..i]) && IsRun(text[i..j])
    ensures text == text[..i] + text[i..j] + text[j..]
    ensures j < |text| ==> text[j..][0] != '_'
  {
    CutRun(text, i, j);
    CutRest(text, i, j);
    Reassemble(text, i, j);
  }

  lemma Reassemble(s: string, i: nat, j: nat)
    requires i <= j <= |s|
    ensures s == s[..i] + s[i..j] + s[j..]
  {
  }

  lemma CutRun(text: string, i: nat, j: nat)
    requires i == TextLength(text) < |text|
    requires j == i + RunLength(text[i..])
    ensures i < j <= |text| && IsRun(text[i..j])
  {
    var tail := text[i..];
    assert tail[0] == '_';
    forall k | 0 <= k < j - i
      ensures text[i..j][k] == '_'
    {
      assert text[i..j][k] == tail[k];
    }
  }

  lemma CutRest(text: string, i: nat, j: nat)
    requires i == TextLength(text) < |text|
    requires j == i + RunLength(text[i..])
    ensures j < |text| ==> text[j..][0] != '_'
  {
  }

  lemma NonUnderscoreStartsText(s: string)
    requires |s| > 0 && s[0] != '_'
    ensures TextLength(s) > 0
  {
  }

  lemma ConcatCons(a: string, r: string, rest: seq<string>)
    ensures Concat([a, r] + rest) == a + r + Concat(rest)
  {
    var parts := [a, r] + rest;
    assert parts[1..][1..] == rest;
    assert a + (r + Concat(rest)) == a + r + Concat(rest);
  }

  /** `text.split(/(_+)/g)`. */
  function SplitParts(text: string): (parts: seq<string>)
    ensures Alternates(parts)
    ensures Concat(parts) == text
    ensures parts[0] == text[..TextLength(text)]
    decreases |text|
  {
    var i := TextLength(text);
    if i == |text| then
      assert text[..i] == text;
      [text]
    else
      var j := i + RunLength(text[i..]);
      Cut(text, i, j);
      assert j < |text| ==> TextLength(text[j..]) > 0 by {
        if j < |text| {
          NonUnderscoreStartsText(text[j..]);
        }
      }
      var rest := SplitParts(text[j..]);
      AlternatesCons(text[..i], text[i..j], rest);
      ConcatCons(text[..i], text[i..j], rest);
      [text[..i], text[i..j]] + rest
  }

  /** Part i is a blank exactly when i is odd, and then it is bound to
      answer slot i / 2. */
  function SlotOf(i: nat): nat
  {
    i / 2
  }

  /** Counting the underscore runs directly, left to right: a run starts at
      an underscore that does not follow another. */
  function CountRuns(s: string, afterUnderscore: bool): nat
  {
    if s == [] then 0
    else (if s[0] == '_' && !afterUnderscore then 1 else 0) + CountRuns(s[1..], s[0] == '_')
  }

  lemma {:induction false} CountRunsNoUnderscore(s: string, t: string, after: bool)
    requires IsText(s) && s != []
    ensures CountRuns(s + t, after) == CountRuns(t, false)
    decreases |s|
  {
    assert (s + t)[0] == s[0] && (s + t)[1..] == s[1..] + t;
    if |s| > 1 {
      CountRunsNoUnderscore(s[1..], t, false);
    } else {
      assert s[1..] + t == t;
    }
  }

  lemma {:induction false} CountRunsRun(r: string, t: string, after: bool)
    requires IsRun(r)
    ensures CountRuns(r + t, after) == (if after then 0 else 1) + CountRuns(t, true)
    decreases |r|
  {
    assert (r + t)[0] == r[0] && (r + t)[1..] == r[1..] + t;
    if |r| > 1 {
      CountRunsRun(r[1..], t, true);
    } else {
      assert r[1..] + t == t;
    }
  }

  /** Whether the text before started with an underscore does not matter
      when the text itself does not start with one. */
  lemma CountRunsFresh(s: string)
    requires s == [] || s[0] != '_'
    ensures CountRuns(s, true) == CountRuns(s, false)
  {
  }

  /** One step of the split, seen by the direct count: the piece before the
      first run adds nothing, the run adds one. */
  lemma CountRunsStep(pre: string, run: string, rest: string)
    requires IsText(pre) && IsRun(run)
    requires rest == [] || rest[0] != '_'
    ensures CountRuns(pre + run + rest, false) == 1 + CountRuns(rest, false)
  {
    assert CountRuns(pre + run + rest, false) == CountRuns(run + rest, false) by {
      if pre != [] {
        assert pre + run + rest == pre + (run + rest);
        CountRunsNoUnderscore(pre, run + rest, false);
      } else {
        assert pre + run + rest == run + rest;
      }
    }
    CountRunsRun(run, rest, false);
    CountRunsFresh(rest);
  }

  /** The blanks are the text's underscore runs: there are as many blank
      parts (one fewer than twice as many parts) as the direct count
      finds. */
  lemma {:induction false} BlankCountIsRunCount(text: string)
    ensures |SplitParts(text)| == 2 * CountRuns(text, false) + 1
    decreases |text|
  {
    var i := TextLength(text);
    if i == |text| {
      assert |SplitParts(text)| == 1;
      assert CountRuns(text, false) == 0 by {
        if text != [] {
          assert text[..i] == text && text + [] == text;
          CountRunsNoUnderscore(text, [], false);
        }
      }
    } else {
      var j := i + RunLength(text[i..]);
      Cut(text, i, j);
      var rest := text[j..];
      assert CountRuns(text, false) == 1 + CountRuns(rest, false) by {
        CountRunsStep(text[..i], text[i..j], rest);
      }
      assert |SplitParts(text)| == 2 + |SplitParts(rest)| by {
        assert SplitParts(text) == [text[..i], text[i..j]] + SplitParts(rest);
      }
      BlankCountIsRunCount(rest);
    }
  }

  /** Blanks are numbered 0, 1, ..., k - 1 from left to right, k being the
      number of underscore runs: the slot of blank part i is below k, and
      slot s belongs to part 2s + 1, a blank. */
  lemma BlanksNumberedLeftToRight(text: string)
    ensures var parts := SplitParts(text);
      var k := CountRuns(text, false);
      && (forall i :: 0 <= i < |parts| && i % 2 == 1 ==> SlotOf(i) < k && IsRun(parts[i]))
      && (forall s :: 0 <= s < k ==> 2 * s + 1 < |parts| && SlotOf(2 * s + 1) == s && IsRun(parts[2 * s + 1]))
  {
    BlankCountIsRunCount(text);
    SlotsOfParts(SplitParts(text), CountRuns(text, false));
  }

  lemma SlotsOfParts(parts: seq<string>, k: nat)
    requires Alternates(parts) && |parts| == 2 * k + 1
    ensures forall i :: 0 <= i < |parts| && i % 2 == 1 ==> SlotOf(i) < k && IsRun(parts[i])
    ensures forall s :: 0 <= s < k ==> 2 * s + 1 < |parts| && SlotOf(2 * s + 1) == s && IsRun(parts[2 * s + 1])
  {
    forall i | 0 <= i < |parts| && i % 2 == 1
      ensures SlotOf(i) < k
    {
      assert i == 2 * SlotOf(i) + 1;
    }
    forall s | 0 <= s < k
      ensures SlotOf(2 * s + 1) == s && (2 * s + 1) % 2 == 1
    {
    }
  }

  /** `handleChange(index, value)`: a copy of the answers with slot `index`
      set; setting past the end leaves holes (`undefined`, None here). */
  function SetSlot(answers: seq<Option<string>>, index: nat, value: string): (r: seq<Option<string>>)
    ensures |r| == if index < |answers| then |answers| else index + 1
    ensures r[index] == Some(value)
    ensures forall k :: 0 <= k < |answers| && k != index ==> r[k] == answers[k]
    ensures forall k :: |answers| <= k < index ==> r[k] == None
  {
    if index < |answers| then answers[index := Some(value)]
    else answers + seq(index - |answers|, _ => None) + [Some(value)]
  }

  /** `selectedAnswer[index] || ''`: what blank `index` shows. */
  function Display(answers: seq<Option<string>>, index: nat): string
  {
    if index < |answers| && answers[index].Some? then answers[index].value else ""
  }

  /** After typing into a blank, that blank shows what was typed and every
      other blank shows what it showed before. */
  lemma TypingShowsInItsBlankOnly(answers: seq<Option<string>>, index: nat, value: string, other: nat)
    requires other != index
    ensures Display(SetSlot(answers, index, value), index) == value
    ensures Display(SetSlot(answers, index, value), other) == Display(answers, other)
  {
  }

  /** A JavaScript property read `v[i]`: a value, `undefined`, or a
      `TypeError` on `null`. */
  datatype Lookup = Found(v: Value) | Undefined | Throws

  function JsIndex(v: Value, i: nat): Lookup
  {
    match v
    case JNull => Throws
    case JArr(items) => if i < |items| then Found(items[i]) else Undefined
    case JStr(s) => if i < |s| then Found(JStr([s[i]])) else Undefined
    case JObj(fields) => if Text.NatToString(i) in fields then Found(fields[Text.NatToString(i)]) else Undefined
    case _ => Undefined
  }

  const Green: string := "bg-green-200"
  const Red: string := "bg-red-200"

  /** `getInputStyle(index)` as written: no colour before results are
      shown, then green when `isCorrect[index]` is truthy and red
      otherwise; None stands for the `TypeError` of indexing `null`. */
  function InputStyle(showResults: bool, isCorrect: Value, index: nat): Option<string>
  {
    if !showResults then Some("")
    else match JsIndex(isCorrect, index)
      case Throws => None
      case Found(v) => Some(if JsTruthy(v) then Green else Red)
      case Undefined => Some(Red)
  }

  /** `allCorrect`: `isCorrect.every(Boolean)` for an array, else
      `isCorrect` itself. */
  function AllCorrect(isCorrect: Value): Value
  {
    if isCorrect.JArr? then JBool(forall k :: 0 <= k < |isCorrect.items| ==> JsTruthy(isCorrect.items[k]))
    else isCorrect
  }

  /** For an array, "All correct!" shows exactly when every flag is truthy,
      so for the empty array; with results hidden every blank is plain. */
  lemma AllCorrectOfArray(items: seq<Value>, index: nat)
    ensures JsTruthy(AllCorrect(JArr(items))) <==> forall k :: 0 <= k < |items| ==> JsTruthy(items[k])
    ensures AllCorrect(JArr([])) == JBool(true)
    ensures InputStyle(false, JArr(items), index) == Some("")
  {
  }

  /** With one flag per blank, the as-written colours agree with the
      summary: every blank is green exactly when "All correct!" shows. */
  lemma ArrayStylesAgreeWithSummary(items: seq<Value>)
    ensures JsTruthy(AllCorrect(JArr(items)))
            <==> forall s :: 0 <= s < |items| ==> InputStyle(true, JArr(items), s) == Some(Green)
  {
    assert Green[3] != Red[3];
    forall s | 0 <= s < |items|
      ensures InputStyle(true, JArr(items), s) == Some(Green) <==> JsTruthy(items[s])
    {
    }
  }

  /** The backend sends a single boolean `is_correct` per answer. Given
      `true`, the summary says "All correct!" while every blank is red:
      `true[index]` is `undefined`. */
  lemma ScalarVerdictPaintsBlanksRed(index: nat)
    ensures JsTruthy(AllCorrect(JBool(true)))
    ensures InputStyle(true, JBool(true), index) == Some(Red)
  {
  }

  /** `getInputStyle` as evidently intended: a scalar verdict applies to
      every blank, an array gives one flag per blank. */
  function InputStyleCorrected(showResults: bool, isCorrect: Value, index: nat): string
  {
    if !showResults then ""
    else if isCorrect.JArr? then
      (if index < |isCorrect.items| && JsTruthy(isCorrect.items[index]) then Green else Red)
    else if JsTruthy(isCorrect) then Green
    else Red
  }

  /** The corrected colours always agree with the summary, for a scalar
      verdict as for one flag per blank: every one of the k blanks is green
      exactly when "All correct!" shows. */
  lemma CorrectedStylesAgreeWithSummary(isCorrect: Value, k: nat)
    requires k > 0
    requires isCorrect.JArr? ==> |isCorrect.items| == k
    ensures JsTruthy(AllCorrect(isCorrect))
            <==> forall s :: 0 <= s < k ==> InputStyleCorrected(true, isCorrect, s) == Green
  {
    assert Green[3] != Red[3];
    if isCorrect.JArr? {
      forall s | 0 <= s < k
        ensures InputStyleCorrected(true, isCorrect, s) == Green <==> JsTruthy(isCorrect.items[s])
      {
      }
    } else if !JsTruthy(isCorrect) {
      assert InputStyleCorrected(true, isCorrect, 0) == Red;
    }
  }
}
