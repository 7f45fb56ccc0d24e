/** TweetDto.Validate: an empty author id is reported, and so is content
    that, once lower-cased, contains any of seven script-injection patterns
    (reported once, however many of them occur). */
module TweetDtoValidation {
  import opened Common

  const DangerousMessage: string := "El Campo contiene caracteres peligrosos."

  const Dangerous: ValidationResult := ValidationResult(DangerousMessage, ["Content"])

  /** The patterns in the order the scan tries them. */
  const Forbidden: seq<string> :=
    ["javascript:", "<script", "onerror=", "onload=", "document.cookie", "eval(", "alert("]

  /** Invariant lower-casing of one character, as far as it can produce an
      ASCII character: 'A'..'Z' and U+212A (Kelvin sign, to 'k'). Invariant
      casing keeps U+0130 (capital I with dot above) as it is, and every
      other character is kept here too. */
  function LowerChar(c: char): (d: char)
    ensures 'A' <= c <= 'Z' ==> d as int == c as int + 32
    ensures 'a' <= d <= 'z' ==> d == c || 'A' <= c <= 'Z' || c == '\U{212A}'
  {
    if 'A' <= c <= 'Z' then (c as int + 32) as char
    else if c == '\U{212A}' then 'k'
    else c
  }

  function ToLower(s: string): (r: string)
    ensures |r| == |s|
    ensures forall i :: 0 <= i < |s| ==> r[i] == LowerChar(s[i])
  {
    if s == [] then [] else [LowerChar(s[0])] + ToLower(s[1..])
  }

  /** Lower-casing a lower-cased string changes nothing. */
  lemma ToLowerIdempotent(s: string)
    ensures ToLower(ToLower(s)) == ToLower(s)
  {
  }

  /** `p` occurs in `s` starting at position `i`. */
  predicate OccursAt(s: string, p: string, i: int)
  {
    0 <= i && i + |p| <= |s| && s[i..i + |p|] == p
  }

  /** String.Contains, as a left-to-right search. */
  function Contains(s: string, p: string): bool
  {
    if |s| < |p| then false
    else if p <= s then true
    else Contains(s[1..], p)
  }

  /** The search finds `p` exactly when it occurs somewhere in `s`. */
  lemma {:induction false} ContainsExact(s: string, p: string)
    ensures Contains(s, p) <==> exists i :: OccursAt(s, p, i)
  {
    if |s| < |p| {
    } else if p <= s {
      assert OccursAt(s, p, 0);
    } else {
      ContainsExact(s[1..], p);
      forall i | OccursAt(s[1..], p, i)
        ensures OccursAt(s, p, i + 1)
      {
        assert s[i + 1..i + 1 + |p|] == s[1..][i..i + |p|];
      }
      forall i | OccursAt(s, p, i)
        ensures OccursAt(s[1..], p, i - 1)
      {
        assert i != 0;
        assert s[1..][i - 1..i - 1 + |p|] == s[i..i + |p|];
      }
    }
  }

  /** The `foreach` over the patterns: the first one contained in `lower`
      yields the dangerous-content result and ends the scan. */
  function Scan(lower: string, patterns: seq<string>): (r: seq<ValidationResult>)
    ensures r == [] || r == [Dangerous]
    ensures r == [Dangerous] <==> exists j :: 0 <= j < |patterns| && Contains(lower, patterns[j])
  {
    if patterns == [] then []
    else if Contains(lower, patterns[0]) then [Dangerous]
    else
      var rest := Scan(lower, patterns[1..]);
      assert forall j :: 1 <= j < |patterns| ==> patterns[j] == patterns[1..][j - 1];
      rest
  }

  /** Content whose lower-cased form holds one of the forbidden patterns. */
  ghost predicate Flagged(text: string)
  {
    exists j, i :: 0 <= j < |Forbidden| && OccursAt(ToLower(text), Forbidden[j], i)
  }

  lemma ScanFindsFlagged(text: string)
    ensures Scan(ToLower(text), Forbidden) == (if Flagged(text) then [Dangerous] else [])
  {
    var lower := ToLower(text);
    forall j | 0 <= j < |Forbidden|
      ensures Contains(lower, Forbidden[j]) <==> exists i :: OccursAt(lower, Forbidden[j], i)
    {
      ContainsExact(lower, Forbidden[j]);
    }
  }

  /** Missing content counts as the empty string. */
  function TextOf(content: Option<string>): string
  {
    if content.Some? then content.value else ""
  }

  function Validate(userId: Guid, content: Option<string>): (r: seq<ValidationResult>)
    ensures |r| <= 2
    ensures (|r| > 0 && r[0] == MissingUserId) <==> userId == EmptyGuid
  {
    (if userId == EmptyGuid then [MissingUserId] else []) + Scan(ToLower(TextOf(content)), Forbidden)
  }

  /** The results, in terms of what the content contains rather than of
      the scan: the empty-id result first, then at most one dangerous-content
      result, present exactly when some forbidden pattern occurs. */
  lemma ValidateExact(userId: Guid, content: Option<string>)
    ensures Validate(userId, content) ==
      (if userId == EmptyGuid then [MissingUserId] else []) +
      (if Flagged(TextOf(content)) then [Dangerous] else [])
    ensures Validate(userId, content) == [] <==> userId != EmptyGuid && !Flagged(TextOf(content))
  {
    ScanFindsFlagged(TextOf(content));
  }

  /** Null content behaves as empty content and is never dangerous. */
  lemma NullContentIsEmpty(userId: Guid)
    ensures Validate(userId, None) == Validate(userId, Some(""))
    ensures Dangerous !in Validate(userId, None)
  {
    ValidateExact(userId, None);
  }

  /** Matching ignores case: content and its lower-cased form validate alike. */
  lemma IgnoresCase(userId: Guid, text: string)
    ensures Validate(userId, Some(text)) == Validate(userId, Some(ToLower(text)))
  {
    ToLowerIdempotent(text);
  }

  /** Upper-case spellings of a pattern are caught: "<SCRIPT>" from a
      non-empty author gives exactly the dangerous-content result. */
  lemma CatchesUpperCaseScript(userId: Guid, text: string)
    requires userId != EmptyGuid && text == "<SCRIPT>"
    ensures Validate(userId, Some(text)) == [Dangerous]
  {
    var lower := ToLower(text);
    assert lower[..7] == "<script" by {
      forall i | 0 <= i < 7
        ensures lower[i] == "<script"[i]
      {
        assert lower[i] == LowerChar(text[i]);
      }
    }
    assert OccursAt(lower, Forbidden[1], 0);
    ValidateExact(userId, Some(text));
  }
}
