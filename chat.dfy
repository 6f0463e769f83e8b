/** One turn of the main chat loop (app.py:92-131): build the contextual
    prompt, consulting the directory only when a trigger phrase matches, then
    send it with the retry policy. */
module Chat {
  import opened Text
  import opened Directory
  import opened Prompt
  import opened Retry

  /** Handles one submitted prompt against the database and the oracle's
      outcomes. The prompt sent is exactly the user's prompt, followed by the
      system note with the current directory when a phrase matched; it is
      sent once per attempt, at most three times. */
  method HandlePrompt(db: Database, prompt: string, outcomes: seq<Outcome>) returns (contextual: string, t: Trace)
    requires db.created
    requires |outcomes| >= MaxAttempts
    ensures contextual == ContextualPrompt(prompt, DirectoryText(db.doctors))
    ensures t == Policy(contextual, outcomes, 0)
    ensures 1 <= |t.sent| <= MaxAttempts
    ensures forall i :: 0 <= i < |t.sent| ==> t.sent[i] == contextual
  {
    contextual := prompt;
    if NeedsLookup(prompt) {
      var doctorData := db.GetLocalDoctors();
      contextual := contextual + SystemNote(doctorData);
    }
    t := SendWithRetry(contextual, outcomes);
    SendsBounded(contextual, outcomes, 0);
  }

  /** One run of the script (Streamlit reruns it on every interaction):
      `init_db` at app.py:68, which makes the table exist, then the handling
      of the submitted prompt against the seeded table. A table that already
      held rows, as after any earlier run, is left as it was. */
  method ScriptRun(db: Database, prompt: string, outcomes: seq<Outcome>) returns (contextual: string, t: Trace)
    requires |outcomes| >= MaxAttempts
    modifies db
    ensures db.created
    ensures db.doctors == Seeded(if old(db.created) then old(db.doctors) else [])
    ensures old(db.created) && old(db.doctors) != [] ==> db.doctors == old(db.doctors)
    ensures contextual == ContextualPrompt(prompt, DirectoryText(db.doctors))
    ensures t == Policy(contextual, outcomes, 0)
  {
    db.InitDb();
    contextual, t := HandlePrompt(db, prompt, outcomes);
  }
}
