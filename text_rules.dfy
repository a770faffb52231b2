/** The text rules of the dialogue: substring search, `str.lower()`,
    the exit-intent check and the rule-based reply. */
module TextRules {
  import opened Config

  /** `p` occurs in `s` starting at index `i`. */
  ghost predicate OccursAt(s: string, p: string, i: int)
  {
    0 <= i && i + |p| <= |s| && s[i..i + |p|] == p
  }

  /** Python's `p in s` on strings. An empty `p` occurs everywhere. */
  function Contains(s: string, p: string): (r: bool)
    ensures r <==> exists i :: OccursAt(s, p, i)
    decreases |s|
  {
    if |p| > |s| then false
    else if s[..|p|] == p then assert OccursAt(s, p, 0); true
    else
      assert !OccursAt(s, p, 0);
      assert forall i :: OccursAt(s, p, i + 1) <==> OccursAt(s[1..], p, i) by {
        forall i ensures OccursAt(s, p, i + 1) <==> OccursAt(s[1..], p, i) {
          if 0 <= i && i + 1 + |p| <= |s| {
            var tail := s[1..];
            assert tail[i..i + |p|] == s[i + 1..i + 1 + |p|];
          }
        }
      }
      assert forall i :: OccursAt(s, p, i) ==> OccursAt(s[1..], p, i - 1) by {
        forall i | OccursAt(s, p, i) ensures OccursAt(s[1..], p, i - 1) {
          assert OccursAt(s, p, (i - 1) + 1);
        }
      }
      Contains(s[1..], p)
  }

  /** Python's `str.lower()` restricted to ASCII: 'A'..'Z' become 'a'..'z'. */
  function LowerChar(c: char): char
  {
    if 'A' <= c <= 'Z' then (c as int + 32) as char else c
  }

  function Lower(s: string): string
  {
    seq(|s|, i requires 0 <= i < |s| => LowerChar(s[i]))
  }

  /** Whether some keyword of `kws` is a substring of `s`. */
  function ContainsAny(s: string, kws: seq<string>): (r: bool)
    ensures r <==> exists k :: 0 <= k < |kws| && Contains(s, kws[k])
  {
    if kws == [] then false
    else
      assert forall k :: 1 <= k < |kws| ==> kws[k] == kws[1..][k - 1];
      Contains(s, kws[0]) || ContainsAny(s, kws[1..])
  }

  /** `_check_exit_intent`: some exit keyword is a substring of the lower-cased text. */
  function CheckExitIntent(text: string): (r: bool)
    ensures r <==> exists k, i :: 0 <= k < |ExitKeywords| && OccursAt(Lower(text), ExitKeywords[k], i)
  {
    ContainsAny(Lower(text), ExitKeywords)
  }

  /** Nothing is an exit intent in an empty transcription. */
  lemma ExitIntentFalseOnEmpty()
    ensures !CheckExitIntent("")
  {
    forall k, i | 0 <= k < |ExitKeywords| ensures !OccursAt(Lower(""), ExitKeywords[k], i) {
      assert |ExitKeywords[k]| > 0;
    }
  }

  /** Lower-casing the text first gives the same verdict, for every text. */
  lemma ExitIntentOfLowered(text: string)
    ensures CheckExitIntent(Lower(text)) == CheckExitIntent(text)
  {
    assert Lower(Lower(text)) == Lower(text);
  }

  /** Turning any one ASCII lower-case letter of the text into upper case keeps
      the verdict. */
  lemma ExitIntentIgnoresCase(text: string, i: nat)
    requires i < |text| && 'a' <= text[i] <= 'z'
    ensures CheckExitIntent(text[i := (text[i] as int - 32) as char]) == CheckExitIntent(text)
  {
    var upper := text[i := (text[i] as int - 32) as char];
    assert Lower(upper) == Lower(text);
  }

  /** Examples: a farewell in Chinese, an upper-case "BYE", and a word that merely
      contains "quit" (the match has no word boundaries). */
  lemma ExitIntentExamples()
    ensures CheckExitIntent("谢谢，再见")
    ensures CheckExitIntent("OK, BYE")
    ensures CheckExitIntent("quite good")
  {
    assert OccursAt(Lower("谢谢，再见"), ExitKeywords[0], 0);
    assert Lower("OK, BYE")[4..7] == "bye";
    assert OccursAt(Lower("OK, BYE"), ExitKeywords[6], 4);
    assert Lower("quite good")[0..4] == "quit";
    assert OccursAt(Lower("quite good"), ExitKeywords[5], 0);
  }

  const GreetingReply: string := "你好！很高兴为你服务。"
  const TimePrefix: string := "现在是 "
  const EchoPrefix: string := "我听到了："
  const EchoSuffix: string := "，但我还不知道怎么回答。"

  /** `_process_response`. `clock` stands for the `time.strftime('%H:%M')` text. */
  function ProcessResponse(text: string, clock: string): (r: string)
    ensures Contains(text, "你好") ==> r == GreetingReply
    ensures !Contains(text, "你好") && (Contains(text, "几点") || Contains(text, "时间")) ==>
              OccursAt(r, TimePrefix, 0) && OccursAt(r, clock, |TimePrefix|) && r != GreetingReply
    ensures !Contains(text, "你好") && !Contains(text, "几点") && !Contains(text, "时间") ==>
              OccursAt(r, EchoPrefix, 0) && OccursAt(r, text, |EchoPrefix|) && r != GreetingReply
  {
    if Contains(text, "你好") then GreetingReply
    else if Contains(text, "几点") || Contains(text, "时间") then
      var r := TimePrefix + clock + "。";
      assert r[0] != GreetingReply[0];
      assert r[..|TimePrefix| + |clock|][|TimePrefix|..] == clock;
      r
    else
      var r := EchoPrefix + text + EchoSuffix;
      assert r[0] != GreetingReply[0];
      assert r[..|EchoPrefix| + |text|][|EchoPrefix|..] == text;
      r
  }
}
