/** The consistency-report normaliser of backend/app/core/coherence.py: the
    model's reply loses its Markdown code fences, is parsed as JSON, and the
    four report fields are filled in when missing; anything that fails
    yields a fixed fallback report. */
module Coherence {
  import opened Wrappers
  import opened Text
  import opened Dicts

  /** A parsed JSON value; objects keep their key order. */
  datatype Json =
    | JNull
    | JBool(b: bool)
    | JNumber(n: real)
    | JString(s: string)
    | JArray(items: seq<Json>)
    | JObject(fields: Dict<Json>)

  /** The fields of a validation report, in the order they are filled. */
  const RequiredKeys: seq<string> := ["plot_holes", "character_inconsistencies", "logic_errors", "suggestions"]

  const FailureNote := "Validation failed due to API error."

  /** The report returned when anything goes wrong. */
  function Fallback(): Json {
    JObject([Entry("plot_holes", JArray([])),
             Entry("character_inconsistencies", JArray([])),
             Entry("logic_errors", JArray([])),
             Entry("suggestions", JArray([JString(FailureNote)]))])
  }

  // ---------------------------------------------------------------------
  // The request
  // ---------------------------------------------------------------------

  const PromptLead := "\nYou are a continuity editor for a novel.\nAnalyze the following chapter against the provided context.\n\nContext:\n"
  const PromptMiddle := "\n\nChapter:\n"
  const PromptTail := "\n\nIdentify any:\n1. Plot Holes (Contradictions with context)\n2. Character Inconsistencies (Voice, Motivation, Location)\n3. Logic Errors\n\nOutput a JSON object:\n{\n    \"plot_holes\": [],\n    \"character_inconsistencies\": [],\n    \"logic_errors\": [],\n    \"suggestions\": []\n}\nIf no issues, arrays should be empty.\n"

  /** The consistency template with the context and the chapter filled in. */
  function ConsistencyPrompt(context: string, chapter: string): string {
    PromptLead + context + PromptMiddle + chapter + PromptTail
  }

  /** Both values are inserted verbatim, at fixed places: the context right
      after the lead text and the chapter right before the tail. */
  lemma PromptCarriesInputs(context: string, chapter: string)
    ensures var p := ConsistencyPrompt(context, chapter);
            && |p| == |PromptLead| + |context| + |PromptMiddle| + |chapter| + |PromptTail|
            && p[|PromptLead|..|PromptLead| + |context|] == context
            && p[|p| - |PromptTail| - |chapter|..|p| - |PromptTail|] == chapter
  {
    var p := ConsistencyPrompt(context, chapter);
    var a := PromptLead + context;
    assert p == a + (PromptMiddle + chapter + PromptTail);
    assert a[|PromptLead|..] == context;
    var b := PromptLead + context + PromptMiddle + chapter;
    assert p == b + PromptTail;
    assert b[|b| - |chapter|..] == chapter;
  }

  // ---------------------------------------------------------------------
  // Fence stripping
  // ---------------------------------------------------------------------

  const Fence := "```"
  const JsonFence := "```json"

  /** Remove every "```json" and then every "```" when the reply holds a
      "```json"; otherwise remove every "```" when it holds one. */
  function StripFences(content: string): string {
    if Contains(content, JsonFence) then Replace(Replace(content, JsonFence, ""), Fence, "")
    else if Contains(content, Fence) then Replace(content, Fence, "")
    else content
  }

  /** A "```json" is in particular a "```". */
  lemma JsonFenceIsFence(s: string)
    ensures Contains(s, JsonFence) ==> Contains(s, Fence)
  {
    ContainsIffOccurs(s, JsonFence);
    ContainsIffOccurs(s, Fence);
    if Contains(s, JsonFence) {
      var i: nat :| OccursAt(s, JsonFence, i);
      assert s[i..i + 3] == s[i..i + 7][..3];
      assert OccursAt(s, Fence, i);
    }
  }

  /** A reply without fences is passed on unchanged. */
  lemma StripFencesPlain(content: string)
    requires !Contains(content, Fence)
    ensures StripFences(content) == content
  {
    JsonFenceIsFence(content);
  }

  /** Whatever the reply, no "```" is left for the parser. */
  lemma StripFencesLeavesNoFence(content: string)
    ensures !Contains(StripFences(content), Fence)
  {
    if Contains(content, JsonFence) {
      RemoveFenceLeavesNone(Replace(content, JsonFence, ""));
    } else if Contains(content, Fence) {
      RemoveFenceLeavesNone(content);
    }
  }

  /** A body wrapped in a "```json" block, the usual shape of such replies,
      comes back exactly. */
  lemma StripFencesJsonBlock(body: string)
    requires '`' !in body
    ensures StripFences(JsonFence + body + Fence) == body
  {
    var s := JsonFence + body + Fence;
    assert StartsWith(s, JsonFence) by {
      assert s[..|JsonFence|] == JsonFence;
    }
    assert Contains(s, JsonFence);
    assert s[|JsonFence|..] == body + Fence;
    assert JsonFence[0] == '`' && Fence[0] == '`';
    assert Replace(s, JsonFence, "") == "" + Replace(body + Fence, JsonFence, "");
    ReplaceSkipsPrefix(body, Fence, JsonFence, "");
    assert Replace(Fence, JsonFence, "") == Fence;
    assert Replace(s, JsonFence, "") == body + Fence;
    ReplaceSkipsPrefix(body, Fence, Fence, "");
    assert Fence[..|Fence|] == Fence && Fence[|Fence|..] == "";
    assert Replace(Fence, Fence, "") == "";
    assert body + "" == body;
  }

  // ---------------------------------------------------------------------
  // Backfill of the report fields
  // ---------------------------------------------------------------------

  /** `key in result`: a key of an object, an element of an array, a
      substring of a string; for the other values the test raises (None). */
  function Has(result: Json, key: string): Option<bool> {
    match result
    case JObject(fields) => Some(HasKey(fields, key))
    case JArray(items) => Some(JString(key) in items)
    case JString(s) => Some(Contains(s, key))
    case _ => None
  }

  /** The outcome of the backfill loop over `keys`: None when it raises
      (an `in` test on a scalar, or an item assignment on an array or a
      string), otherwise the value with every missing key set to `[]`. */
  function Backfilled(result: Json, keys: seq<string>): Option<Json>
    decreases |keys|
  {
    if keys == [] then Some(result)
    else match Has(result, keys[0])
      case None => None
      case Some(present) =>
        if present then Backfilled(result, keys[1..])
        else if result.JObject? then Backfilled(JObject(Put(result.fields, keys[0], JArray([]))), keys[1..])
        else None
  }

  /** On an object the backfill always succeeds: the parsed entries stay
      first and keep their values, each missing key of `keys` is added with
      `[]`, and nothing else is added. */
  lemma {:induction false} BackfillObject(fields: Dict<Json>, keys: seq<string>)
    ensures Backfilled(JObject(fields), keys).Some?
    ensures var r := Backfilled(JObject(fields), keys).value;
            && r.JObject?
            && fields <= r.fields
            && (forall k :: HasKey(fields, k) ==> Lookup(r.fields, k) == Lookup(fields, k))
            && (forall k :: !HasKey(fields, k) ==>
                  Lookup(r.fields, k) == if k in keys then Some(JArray([])) else None)
    decreases |keys|
  {
    if keys == [] {
      forall k | !HasKey(fields, k) ensures Lookup(fields, k) == None {
        LookupFindsKey(fields, k);
      }
    } else {
      var k0 := keys[0];
      assert forall k :: k in keys <==> k == k0 || k in keys[1..];
      if HasKey(fields, k0) {
        BackfillObject(fields, keys[1..]);
      } else {
        var grown := Put(fields, k0, JArray([]));
        BackfillObject(grown, keys[1..]);
        assert Backfilled(JObject(fields), keys) == Backfilled(JObject(grown), keys[1..]);
        var r := Backfilled(JObject(grown), keys[1..]).value;
        PutAppends(fields, k0, JArray([]));
        PutLookup(fields, k0, JArray([]));
        PutKeys(fields, k0, JArray([]));
        assert fields <= r.fields by {
          assert fields == grown[..|fields|];
          assert grown == r.fields[..|grown|];
        }
        forall k | HasKey(fields, k) ensures Lookup(r.fields, k) == Lookup(fields, k) {
          assert HasKey(grown, k) by {
            assert Keys(grown) == Keys(fields) + [k0];
          }
        }
        forall k | !HasKey(fields, k)
          ensures Lookup(r.fields, k) == if k in keys then Some(JArray([])) else None
        {
          if k == k0 {
            assert HasKey(grown, k0) by {
              assert Keys(grown) == Keys(fields) + [k0];
            }
          } else {
            assert !HasKey(grown, k) by {
              assert Keys(grown) == Keys(fields) + [k0];
            }
          }
        }
      }
    }
  }

  /** Afterwards every key of `keys` is present. */
  lemma BackfillComplete(fields: Dict<Json>, keys: seq<string>)
    ensures Backfilled(JObject(fields), keys).Some?
    ensures var r := Backfilled(JObject(fields), keys).value;
            forall k :: k in keys ==> r.JObject? && HasKey(r.fields, k)
  {
    BackfillObject(fields, keys);
    var r := Backfilled(JObject(fields), keys).value;
    forall k | k in keys ensures HasKey(r.fields, k) {
      LookupFindsKey(fields, k);
      LookupFindsKey(r.fields, k);
    }
  }

  /** On anything but an object the backfill changes nothing: it keeps the
      value when every key passes the `in` test, and raises otherwise. */
  lemma {:induction false} BackfillOther(result: Json, keys: seq<string>)
    requires !result.JObject?
    ensures Backfilled(result, keys) == if forall k :: k in keys ==> Has(result, k) == Some(true) then Some(result) else None
    decreases |keys|
  {
    if keys != [] {
      BackfillOther(result, keys[1..]);
      assert forall k :: k in keys <==> k == keys[0] || k in keys[1..];
    }
  }

  /** The backfill loop, updating the parsed value in place. */
  method Backfill(result: Json) returns (r: Option<Json>)
    ensures r == Backfilled(result, RequiredKeys)
  {
    var current := result;
    var i := 0;
    while i < |RequiredKeys|
      invariant 0 <= i <= |RequiredKeys|
      invariant Backfilled(result, RequiredKeys) == Backfilled(current, RequiredKeys[i..])
    {
      var key := RequiredKeys[i];
      assert RequiredKeys[i..][0] == key && RequiredKeys[i..][1..] == RequiredKeys[i + 1..];
      var present := Has(current, key);
      if present.None? {
        return None;
      }
      if !present.value {
        if !current.JObject? {
          return None;
        }
        current := JObject(Put(current.fields, key, JArray([])));
      }
      i := i + 1;
    }
    return Some(current);
  }

  // ---------------------------------------------------------------------
  // check_consistency
  // ---------------------------------------------------------------------

  /** The report for a parse outcome: the fallback when parsing or the
      backfill fails, the backfilled value otherwise. */
  function Report(parsed: Option<Json>): Json {
    if parsed.None? then Fallback()
    else Backfilled(parsed.value, RequiredKeys).GetOr(Fallback())
  }

  /** `check_consistency(chapter_text, context_summary)`. The model call is
      `complete`: the reply's content, or None for a reply without content
      (on which the fence test raises); a failed call already comes back as
      "". `json.loads` is `parse`, None standing for a decoding error, and it
      rejects the empty text as the real decoder does. */
  method CheckConsistency(chapter: string, context: string,
                          complete: string -> Option<string>, parse: string -> Option<Json>)
    returns (r: Json)
    requires parse("") == None
    ensures var reply := complete(ConsistencyPrompt(context, chapter));
            r == if reply.None? then Fallback() else Report(parse(StripFences(reply.value)))
    ensures var reply := complete(ConsistencyPrompt(context, chapter));
            reply.None? || reply == Some("") ==> r == Fallback()
  {
    var prompt := ConsistencyPrompt(context, chapter);
    var reply := complete(prompt);
    if reply.None? {
      return Fallback();
    }
    StripFencesPlain("");
    var content := StripFences(reply.value);
    var parsed := parse(content);
    if parsed.None? {
      return Fallback();
    }
    var filled := Backfill(parsed.value);
    if filled.None? {
      return Fallback();
    }
    r := filled.value;
  }

  /** Every report is the fallback, or a backfilled object holding all four
      fields with the parsed values kept, or an array or string that passed
      every `in` test and is returned as parsed. A failed parse, a scalar, or
      an array or string missing a field gives the fallback. */
  lemma ReportCases(parsed: Option<Json>)
    ensures parsed.None? ==> Report(parsed) == Fallback()
    ensures parsed.Some? && parsed.value.JObject? ==>
              var fields := parsed.value.fields;
              var r := Report(parsed);
              && r.JObject? && fields <= r.fields
              && (forall k :: k in RequiredKeys ==> HasKey(r.fields, k))
              && (forall k :: HasKey(fields, k) ==> Lookup(r.fields, k) == Lookup(fields, k))
              && (forall k :: !HasKey(fields, k) && k in RequiredKeys ==> Lookup(r.fields, k) == Some(JArray([])))
    ensures parsed.Some? && !parsed.value.JObject? ==>
              Report(parsed) == if forall k :: k in RequiredKeys ==> Has(parsed.value, k) == Some(true)
                                then parsed.value else Fallback()
  {
    if parsed.Some? {
      if parsed.value.JObject? {
        BackfillObject(parsed.value.fields, RequiredKeys);
        BackfillComplete(parsed.value.fields, RequiredKeys);
      } else {
        BackfillOther(parsed.value, RequiredKeys);
      }
    }
  }
}
