/** `parse_generated_text`: the generative service's reply becomes the list
    of question objects, each tagged with the requested assessment type. */
module ResponseParser {
  import opened Wrappers
  import opened Json
  import opened Text

  const Fence: string := "```"

  /** The argument of `strip("```json")`, which Python reads as a set of
      characters. */
  const FenceChars: set<char> := {'`', 'j', 's', 'o', 'n'}

  predicate IsFenced(text: string)
  {
    StartsWith(text, Fence) && EndsWith(text, Fence)
  }

  /** The string handed to `json.loads`: fenced text is stripped of fence
      characters at both ends and then of whitespace; other text is passed
      through as it is. */
  function DecoderInput(text: string): string
  {
    if IsFenced(text) then Strip(Strip(text, FenceChars), PyWhitespace) else text
  }

  /** What `parse_generated_text` gives its caller: the (possibly tagged)
      decoded value, or an exception other than `JSONDecodeError`, which
      escapes. */
  datatype ParseOutcome = Parsed(questions: Value) | Raised

  /** `q` is `original` with its "type" key set to `t` and every other key
      left as it was. */
  predicate TaggedCopy(q: Value, original: Value, t: Value)
  {
    && q.JObj? && original.JObj?
    && q.fields.Keys == original.fields.Keys + {"type"}
    && q.fields["type"] == t
    && forall k :: k in original.fields && k != "type" ==> q.fields[k] == original.fields[k]
  }

  predicate AllObjects(items: seq<Value>)
  {
    forall k :: 0 <= k < |items| ==> items[k].JObj?
  }

  /** A decoded value other than a list that `for question in questions`
      walks without reaching an assignment: an empty dict or an empty
      string. Any other non-list value makes the loop raise `TypeError`. */
  predicate IteratesNothing(v: Value)
  {
    v == JObj(map[]) || v == JStr("")
  }

  method ParseGeneratedText(generatedText: string, assessmentType: string, decode: string -> Option<Value>)
    returns (r: ParseOutcome)
    // A decode error degrades to the empty list.
    ensures decode(DecoderInput(generatedText)) == None ==> r == Parsed(JArr([]))
    // A decoded list: every element is a dict that gets the request's type,
    // in the same order; one non-dict element makes the call raise.
    ensures var d := decode(DecoderInput(generatedText));
      d.Some? && d.value.JArr? ==>
        && (r.Parsed? <==> AllObjects(d.value.items))
        && (r.Parsed? ==>
              && r.questions.JArr?
              && |r.questions.items| == |d.value.items|
              && forall k :: 0 <= k < |d.value.items| ==>
                   TaggedCopy(r.questions.items[k], d.value.items[k], JStr(assessmentType)))
    // Any other decoded value is returned untouched when iterating it does
    // nothing, and otherwise raises.
    ensures var d := decode(DecoderInput(generatedText));
      d.Some? && !d.value.JArr? ==>
        && (r.Parsed? <==> IteratesNothing(d.value))
        && (r.Parsed? ==> r.questions == d.value)
  {
    var decoded := decode(DecoderInput(generatedText));
    if decoded.None? {
      return Parsed(JArr([]));
    }
    var tag := JStr(assessmentType);
    match decoded.value {
      case JArr(items) =>
        var tagged: seq<Value> := [];
        var i := 0;
        while i < |items|
          invariant 0 <= i <= |items| && |tagged| == i
          invariant AllObjects(items[..i])
          invariant forall k :: 0 <= k < i ==> TaggedCopy(tagged[k], items[k], tag)
        {
          if !items[i].JObj? {
            return Raised;
          }
          tagged := tagged + [JObj(items[i].fields["type" := tag])];
          i := i + 1;
        }
        assert items[..i] == items;
        r := Parsed(JArr(tagged));
      case JObj(fields) =>
        r := if fields == map[] then Parsed(decoded.value) else Raised;
      case JStr(s) =>
        r := if s == "" then Parsed(decoded.value) else Raised;
      case _ =>
        r := Raised;
    }
  }

  /** Fence stripping loses nothing of a payload that begins and ends with a
      character that is neither whitespace nor a fence character (every JSON
      array or object does): the decoder sees exactly the payload. */
  lemma FenceRoundTrip(payload: string, lead: string, trail: string)
    requires |payload| > 0
    requires payload[0] !in FenceChars && payload[0] !in PyWhitespace
    requires payload[|payload| - 1] !in FenceChars && payload[|payload| - 1] !in PyWhitespace
    requires forall k :: 0 <= k < |lead| ==> lead[k] in PyWhitespace
    requires forall k :: 0 <= k < |trail| ==> trail[k] in PyWhitespace
    ensures DecoderInput(Fence + "json" + lead + payload + trail + Fence) == payload
  {
    var body := lead + payload + trail;
    var text := Fence + "json" + lead + payload + trail + Fence;
    assert text == Fence + "json" + body + Fence;
    assert IsFenced(text) by {
      assert text[..3] == Fence;
      assert text[|text| - 3..] == Fence;
    }
    assert body[0] !in FenceChars by {
      if |lead| > 0 { assert body[0] == lead[0]; } else { assert body[0] == payload[0]; }
    }
    assert body[|body| - 1] !in FenceChars by {
      if |trail| > 0 { assert body[|body| - 1] == trail[|trail| - 1]; }
      else { assert body[|body| - 1] == payload[|payload| - 1]; }
    }
    FenceCharsGo(body);
    WhitespaceGoes(lead, payload, trail);
  }

  /** The opening fence with its "json" tag and the closing fence are cut
      off a body that neither begins nor ends with a fence character. */
  lemma FenceCharsGo(body: string)
    requires |body| > 0 && body[0] !in FenceChars && body[|body| - 1] !in FenceChars
    ensures Strip(Fence + "json" + body + Fence, FenceChars) == body
  {
    var opening := Fence + "json";
    assert forall k :: 0 <= k < |opening| ==> opening[k] in FenceChars;
    assert forall k :: 0 <= k < |Fence| ==> Fence[k] in FenceChars;
    assert opening + body + Fence == opening + (body + Fence);
    LStripDropsPrefix(opening, body + Fence, FenceChars);
    assert (body + Fence)[0] == body[0];
    assert LStrip(body + Fence, FenceChars) == body + Fence;
    RStripDropsSuffix(body, Fence, FenceChars);
    assert RStrip(body, FenceChars) == body;
  }

  /** Whitespace around a payload that begins and ends with non-whitespace
      is cut off, and only that. */
  lemma WhitespaceGoes(lead: string, payload: string, trail: string)
    requires |payload| > 0 && payload[0] !in PyWhitespace && payload[|payload| - 1] !in PyWhitespace
    requires forall k :: 0 <= k < |lead| ==> lead[k] in PyWhitespace
    requires forall k :: 0 <= k < |trail| ==> trail[k] in PyWhitespace
    ensures Strip(lead + payload + trail, PyWhitespace) == payload
  {
    assert lead + payload + trail == lead + (payload + trail);
    LStripDropsPrefix(lead, payload + trail, PyWhitespace);
    assert (payload + trail)[0] == payload[0];
    assert LStrip(payload + trail, PyWhitespace) == payload + trail;
    RStripDropsSuffix(payload, trail, PyWhitespace);
    assert RStrip(payload, PyWhitespace) == payload;
  }

  /** A reply that is not fenced at both ends reaches the decoder unchanged,
      even if it opens or closes with a fence. */
  lemma UnfencedPassesThrough(text: string)
    requires !IsFenced(text)
    ensures DecoderInput(text) == text
  {
  }

  /** `strip("```json")` is not a prefix strip: a fenced payload that
      itself begins with one of the characters `, j, s, o, n (a bare `null`,
      say) loses that character before it reaches the decoder. */
  lemma FenceStripEatsPayload(payload: string)
    requires |payload| > 0 && payload[0] in FenceChars
    ensures |DecoderInput(Fence + payload + Fence)| < |payload|
  {
    var text := Fence + payload + Fence;
    assert IsFenced(text) by {
      assert text[..3] == Fence;
      assert text[|text| - 3..] == Fence;
    }
    FenceCharsEatPayload(payload);
  }

  lemma FenceCharsEatPayload(payload: string)
    requires |payload| > 0 && payload[0] in FenceChars
    ensures |Strip(Fence + payload + Fence, FenceChars)| < |payload|
  {
    FenceIsFenceChars();
    SetCharsEatPayload(Fence, payload, Fence, FenceChars);
  }

  lemma FenceIsFenceChars()
    ensures forall k :: 0 <= k < |Fence| ==> Fence[k] in FenceChars
  {
  }

  /** Between two runs of set characters, a payload that starts with one
      loses it: `strip` leaves less than the payload. */
  lemma SetCharsEatPayload(lead: string, payload: string, close: string, cs: set<char>)
    requires forall k :: 0 <= k < |lead| ==> lead[k] in cs
    requires forall k :: 0 <= k < |close| ==> close[k] in cs
    requires |payload| > 0 && payload[0] in cs
    ensures |Strip(lead + payload + close, cs)| < |payload|
  {
    var c := payload[0];
    var rest := payload[1..];
    assert payload == [c] + rest;
    var opening := lead + [c];
    assert lead + payload + close == opening + (rest + close);
    assert forall k :: 0 <= k < |opening| ==> opening[k] in cs;
    LStripDropsPrefix(opening, rest + close, cs);
    ClosingSetCharsGo(rest, close, cs);
  }

  /** Once the left side is stripped, a closing run of set characters goes
      too, so no more than the text before it is left. */
  lemma ClosingSetCharsGo(y: string, close: string, cs: set<char>)
    requires forall k :: 0 <= k < |close| ==> close[k] in cs
    ensures |RStrip(LStrip(y + close, cs), cs)| <= |y|
  {
    var l := LStrip(y + close, cs);
    var m := |y + close| - |l|;
    if m <= |y| {
      assert l == y[m..] + close;
      RStripDropsSuffix(y[m..], close, cs);
    } else {
      forall k | m <= k < |y + close|
        ensures (y + close)[k] in cs
      {
        assert (y + close)[k] == close[k - |y|];
      }
    }
  }
}
