# AI Healthcare Assistant — model of the prompt assembly and retry logic

The application is a Streamlit chat page in front of a hosted Gemini model.
For each prompt the user submits, it does three things:

- It decides whether to consult a local doctor directory. The test is whether
  any of five fixed phrases is a substring of the lower-cased prompt.
- When a phrase matches, it appends a bracketed "System Note" to the prompt.
  The note holds the directory: one line per row of the SQLite `doctors`
  table. At start-up `init_db` fills that table with five sample rows if it
  is empty.
- It sends the contextual prompt to the model. A rate-limit error is retried
  with 10 s and then 20 s of back-off, for at most three attempts. Any other
  error stops the loop.

This project models these pieces in Dafny and proves properties of them:

| file | module | what it models |
|---|---|---|
| `text.dfy` | `Text` | the string operations used: ASCII `lower`, substring `in` and `join`; and Python's `split`, used only to state the line count of the directory |
| `directory.dfy` | `Directory` | the `Doctor` row, rendering one row as a line, the directory text, and the table with `InitDb` and `GetLocalDoctors` |
| `prompt.dfy` | `Prompt` | the trigger phrases, the lookup test and the contextual prompt |
| `retry.dfy` | `Retry` | error classification, the reference retry policy (`Policy`) and the loop proved equal to it (`SendWithRetry`) |
| `chat.dfy` | `Chat` | one turn of the chat: the contextual prompt, then the send with retries |

Modelling choices:

- The `doctors` table is a field of sequence type in a `Database` class. The
  class has a flag for whether the table exists. `InitDb` updates the table
  in place, as `init_db` does.
- The hosted model is an oracle, given as the sequence of outcomes of
  successive sends. Each outcome is a reply or an exception message.
- `time.sleep` is recorded as the wait it would take.
- What the page shows (`st.markdown`, `st.warning`, `st.error`) is recorded
  as a list of notices.

Two behaviours of the code that the model keeps as they are:

- The note is appended whenever a phrase matches, even when the directory
  text is empty (app.py:102-104; `Prompt.EmptyDirectoryStillNoted`).
- Exceptions are classified by substring tests on `str(e)`, not by their
  type (app.py:118-126; `Retry.Classify`).

## Model

| member | source | states |
|---|---|---|
| `Text.Contains` | app.py:102 | Python's `t in s` holds exactly when `t` occurs at some position of `s`; there are no word boundaries |
| `Text.LowerIdempotent` | app.py:102 | lower-casing a lower-cased prompt changes nothing |
| `Text.SplitJoin` | app.py:65 | splitting the newline-joined lines at `"\n"` gives back the lines, when no line contains a newline |
| `Directory.DirectoryText` | app.py:65 | the joined directory is empty exactly when there are no rows; otherwise it starts with the first row's line |
| `Directory.RenderIsOneLine` | app.py:64 | a row whose five fields have no line break renders as a line without a line break |
| `Directory.DirectoryLines` | app.py:62-65 | no rows give `""`; n rows with line-break-free fields give exactly n lines, the row renderings in row order |
| `Directory.Seeded` | app.py:43-52 | an empty table becomes exactly the five sample rows; a non-empty table is left as it is; the result is never empty |
| `Directory.SeedIdempotent` | app.py:43-52 | seeding twice equals seeding once, so two start-ups on an empty table leave exactly the five sample rows |
| `Directory.Database.InitDb` | app.py:37-54 | afterwards the table exists, and its rows are the seeding of the rows it held before (none if it was absent) |
| `Directory.Database.GetLocalDoctors` | app.py:56-65 | needs the table to exist; returns the directory text of all rows in table order |
| `Prompt.AnyOccurs` | app.py:102 | the `any(...)` over the phrase list holds exactly when some phrase of the list is a substring of the text |
| `Prompt.NeedsLookup` | app.py:101-102 | a lookup happens exactly when one of the five phrases is a substring of the lower-cased prompt |
| `Prompt.ContextualPrompt` | app.py:100-104 | the user's prompt is always a prefix; with no matching phrase it is returned unchanged; with a match, exactly the system note around the directory follows it |
| `Prompt.ContextualPromptRecovers` | app.py:100-104 | the contextual prompt differs from the prompt exactly when a phrase matched; then the prompt, the fixed head, the directory and the fixed tail can each be read back from it |
| `Prompt.LookupIgnoresCase` | app.py:102 | a prompt and its lower-cased form trigger a lookup alike |
| `Prompt.HospitalityTriggers` | app.py:101-102 | "Hospitality" triggers a lookup, because "hospital" is a substring of it |
| `Prompt.NoKeyLetterNoLookup` | app.py:101-102 | a prompt whose lower-cased form has none of the letters f, p, r, w, o triggers no lookup |
| `Prompt.HeadacheIsForwardedUnchanged` | app.py:100-104 | "I have a headache" is sent unchanged, whatever the directory holds |
| `Prompt.EmptyDirectoryStillNoted` | app.py:102-104 | on a match, the note is appended even when the directory text is empty |
| `Retry.Classify` | app.py:119-131 | a message is rate-limited exactly when it contains "ResourceExhausted" or "429"; it is an invalid argument exactly when it contains "InvalidArgument" and neither of those, so the rate-limit test wins |
| `Retry.PolicyRetries` | app.py:119-125 | step lemma of the reference policy `Policy`: on a rate limit the attempt sends once, waits (attempt+1)*10 s when it is attempt 0 or 1 and not at all on attempt 2, shows the matching notice, and the loop goes on with the next attempt |
| `Retry.PolicyStops` | app.py:114-131 | step lemma of the reference policy `Policy`: on a reply or on any other error the attempt sends once, shows one notice, waits nothing, and the loop ends; `response` is the reply if there was one |
| `Retry.SendWithRetry` | app.py:109-131 | the loop's sends, waits, notices and final `response` are exactly those of the reference policy from attempt 0 |
| `Retry.SendsBounded` | app.py:112 | from any attempt the loop sends at least once and at most the attempts left (three in all), always the same prompt |
| `Retry.StopsAtFirstNonRateLimit` | app.py:112-131 | every send except the last met a rate limit; the loop ends before the third attempt only on a reply or on an error that is not a rate limit, so it stops at the first success and never resends after other errors |
| `Retry.ResponseIsLastReply` | app.py:109-116 | `response` holds a reply exactly when the last send was answered, and then it is that reply |
| `Retry.NoticesPerAttempt` | app.py:115-131 | one notice per send: the reply, a retry warning with the wait, "still rate limited" on the last attempt, "invalid request", or "something went wrong", as the attempt's outcome dictates |
| `Retry.WaitsAreBackoffs` | app.py:120-125 | there is one wait fewer than there are sends, and the i-th wait is (i+1)*10 s; no wait follows the last attempt |
| `Retry.RunIsBounded` | app.py:112-125 | a run sends one to three times, waits at most twice, and waits at most 30 s in all |
| `Retry.AlwaysRateLimited` | app.py:119-125 | three rate limits in a row give three sends, waits of 10 s and 20 s, two retry warnings, then "still rate limited", and no response |
| `Retry.Code429IsRateLimit` | app.py:119 | "429" anywhere in a message makes it a rate limit, whatever else it contains (for example "InvalidArgument") |
| `Chat.HandlePrompt` | app.py:99-131 | the prompt sent is the contextual prompt over the current directory; it is sent one to three times, the same text each time, following the retry policy |
| `Chat.ScriptRun` | app.py:68-131 | one run of the script: afterwards the table exists and holds the seeding of what it held before (unchanged if it already had rows), and the prompt is handled against that table as `HandlePrompt` states |

## Left out

- Streamlit page setup, sidebar, the clear-chat button, history display, example buttons and spinners (app.py:9-20, 70-97, 110-111). These are user interface.
- The appending of turns to `st.session_state.messages` (app.py:97). This is session state of the user interface.
- Gemini configuration, `start_chat` and `send_message` (app.py:7, 23-34, 74, 114). These are calls to a hosted service. The model takes the outcome of each send as input instead.
- SQLite connections, `commit` and `close` (app.py:38-39, 53-54, 57-61). These are I/O. The table is a sequence of rows.
- The row order of `SELECT` without `ORDER BY` is modelled as insertion order. SQLite does not promise any order.
- `time.sleep` (app.py:123). The wait is recorded instead of slept.
- `Text.Lower`: only ASCII letters are lower-cased. Python's `str.lower` also maps non-ASCII letters; the trigger phrases are all ASCII.
- Exceptions raised outside `send_message` inside the `try` block are not modelled. One example is a failure of `st.markdown(response.text)` at app.py:115.
- db_setup.py and test.py. These are a database-setup script and a model-listing script, both pure I/O.
- The stray indentation at app.py:106. As written it makes the file fail to parse. The model follows the evident per-prompt flow, in which the retry block runs for each submitted prompt.
