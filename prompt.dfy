/** The doctor-lookup decision and the contextual prompt of app.py:99-104:
    the lower-cased prompt is tested against five fixed phrases by plain
    substring containment, and on a match a bracketed system note holding
    the directory text is appended to the prompt. */
module Prompt {
  import opened Text

  /** The trigger phrases of app.py:101, in their order there. */
  const Keywords: seq<string> := ["find a doctor", "specialist", "recommend a doctor", "which doctor", "hospital"]

  /** Python's `any(word in text for word in words)`: some word of the list
      is a substring of the text. */
  function AnyOccurs(words: seq<string>, text: string): (r: bool)
    ensures r <==> exists w :: w in words && Occurs(w, text)
  {
    if |words| == 0 then false
    else Contains(text, words[0]) || AnyOccurs(words[1..], text)
  }

  /** The test of app.py:102: a lookup is made exactly when some trigger
      phrase is a substring of the lower-cased prompt. */
  function NeedsLookup(prompt: string): (r: bool)
    ensures r <==> exists k :: k in Keywords && Occurs(k, Lower(prompt))
  {
    AnyOccurs(Keywords, Lower(prompt))
  }

  /** The fixed text before and after the directory in the system note. */
  const NoteHead: string := "\n\n[System Note: Here is the local doctor directory:\n"
  const NoteTail: string := "\nRecommend a suitable one if applicable.]"

  /** The bracketed block of app.py:104 around a directory text. */
  function SystemNote(directory: string): string
  {
    NoteHead + directory + NoteTail
  }

  /** `contextual_prompt` after app.py:100-104, given the text that
      `get_local_doctors` returns. The user's prompt is always a prefix; it
      is returned unchanged when no phrase matches, and otherwise exactly the
      system note follows it. */
  function ContextualPrompt(prompt: string, directory: string): (r: string)
    ensures prompt <= r
    ensures !NeedsLookup(prompt) ==> r == prompt
    ensures NeedsLookup(prompt) ==> r[|prompt|..] == SystemNote(directory)
  {
    if NeedsLookup(prompt) then prompt + SystemNote(directory) else prompt
  }

  /** The four parts of a concatenation can be read back by slicing. */
  lemma {:induction false} SliceParts(a: string, b: string, c: string, d: string)
    ensures var r := a + (b + c + d);
      |r| == |a| + |b| + |c| + |d|
      && r[..|a|] == a
      && r[|a|..|a| + |b|] == b
      && r[|a| + |b|..|r| - |d|] == c
      && r[|r| - |d|..] == d
  {
    var r := a + (b + c + d);
    assert r[..|a|] == a;
    assert r[|a|..|a| + |b|] == b;
    assert r[|a| + |b|..|r| - |d|] == c;
    assert r[|r| - |d|..] == d;
  }

  /** The contextual prompt differs from the user's prompt exactly when a
      phrase matched, and then it carries the directory text unaltered between
      the two fixed parts of the note: both the prompt and the directory can
      be read back from it. */
  lemma ContextualPromptRecovers(prompt: string, directory: string)
    ensures ContextualPrompt(prompt, directory) != prompt <==> NeedsLookup(prompt)
    ensures NeedsLookup(prompt) ==>
      var r := ContextualPrompt(prompt, directory);
      |r| == |prompt| + |NoteHead| + |directory| + |NoteTail|
      && r[..|prompt|] == prompt
      && r[|prompt|..|prompt| + |NoteHead|] == NoteHead
      && r[|prompt| + |NoteHead|..|r| - |NoteTail|] == directory
      && r[|r| - |NoteTail|..] == NoteTail
  {
    if NeedsLookup(prompt) {
      SliceParts(prompt, NoteHead, directory, NoteTail);
    }
  }

  /** The match ignores letter case: a prompt and its lower-cased form
      trigger alike. */
  lemma {:induction false} LookupIgnoresCase(prompt: string)
    ensures NeedsLookup(prompt) == NeedsLookup(Lower(prompt))
  {
    LowerIdempotent(prompt);
  }

  /** There are no word boundaries: a phrase inside a longer word triggers,
      so "hospitality" asks for the directory. */
  lemma HospitalityTriggers()
    ensures NeedsLookup("Hospitality")
  {
    var low := Lower("Hospitality");
    assert low == "hospitality";
    assert OccursAt("hospital", low, 0);
    assert "hospital" in Keywords;
  }

  /** Every phrase holds one of the letters f, p, r, w, o, so a prompt whose
      lower-cased form has none of them never triggers a lookup. */
  lemma {:induction false} NoKeyLetterNoLookup(prompt: string)
    requires var low := Lower(prompt); 'f' !in low && 'p' !in low && 'r' !in low && 'w' !in low && 'o' !in low
    ensures !NeedsLookup(prompt)
  {
    var low := Lower(prompt);
    AbsentCharRulesOut("find a doctor", low, 'f');
    AbsentCharRulesOut("specialist", low, 'p');
    AbsentCharRulesOut("recommend a doctor", low, 'r');
    AbsentCharRulesOut("which doctor", low, 'w');
    AbsentCharRulesOut("hospital", low, 'o');
  }

  /** "I have a headache" has none of those letters, so it is forwarded
      unchanged. */
  lemma HeadacheIsForwardedUnchanged(directory: string)
    ensures ContextualPrompt("I have a headache", directory) == "I have a headache"
  {
    assert Lower("I have a headache") == "i have a headache";
    NoKeyLetterNoLookup("I have a headache");
  }

  /** The note is appended even when the directory is empty: the code does
      not skip it. */
  lemma EmptyDirectoryStillNoted(prompt: string)
    requires NeedsLookup(prompt)
    ensures ContextualPrompt(prompt, "") == prompt + NoteHead + NoteTail
  {
  }
}
