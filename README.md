# Git repository dashboard: list state and add form

This project models, in Dafny, the stateful logic of a small browser
dashboard that keeps a list of Git repositories. Each record has a name, a
URL, a status (`synced`, `pending` or `error`) and an optional time of last
sync. The page offers three handlers:

- **add** refuses a URL that is already listed. Otherwise it appends a
  `synced` record stamped with the current time.
- **sync** marks the matching records `pending` at once. Two seconds later a
  timer callback marks them `synced` with a fresh time.
- **delete** drops the records with that URL.

An add form sits in front of the add handler. It rejects a blank name or URL,
then rejects a URL that does not end in `.git`. Otherwise it forwards the
trimmed values and clears its fields.

Files and modules:

- `js_string.dfy`, module `JsString`: the JavaScript `trim` and `endsWith`
  built-ins the form uses. `trim` is written out over an explicit set of
  ECMAScript whitespace and line-terminator code points.
- `add_form.dfy`, module `AddForm`: the pure validation function `Validate`
  and the class `Form`. `Form` holds the two field values and has the
  `Submit` handler.
- `repository_list.dfy`, module `RepositoryList`: the record datatype, pure
  list transformers (`Add`, `MarkPending`, `MarkSynced`, `Remove`), their
  lemmas, and the class `Dashboard`. `Dashboard` holds the `repositories`
  state and has one method per handler.

The timer is modelled as two separate calls. `SyncStart` runs phase one and
returns the list as it was before the call. `SyncFinish` is the timer firing
and takes that snapshot as an argument, because the callback in the source
maps the list its closure captured, not the current list. As a result, any change
made between the two phases is lost. A record deleted mid-sync comes back
(`DeleteDuringSyncReappears`, `DeleteDuringSync`), a record added mid-sync
disappears (`AddDuringSyncLost`), and when two syncs of different URLs
overlap, the first URL's records stay `pending` for good, because the second
timer finishes from a snapshot taken after the first mark
(`OverlappingSyncLeavesPending`).

## Model

| member | source | states |
|---|---|---|
| JsString.IsWhitespace | src/components/AddRepositoryForm.tsx:20 | the set `trim` strips includes space, tab, LF and CR, and every member is a single UTF-16 code unit (a code point below 0x10000) |
| JsString.TrimStart | src/components/AddRepositoryForm.tsx:20 | the result is a suffix of the input; everything dropped is whitespace; a non-empty result starts with a non-whitespace character |
| JsString.TrimEnd | src/components/AddRepositoryForm.tsx:20 | the result is a prefix of the input; everything dropped is whitespace; a non-empty result ends with a non-whitespace character |
| JsString.Trim | src/components/AddRepositoryForm.tsx:20 | `trim()` is empty exactly when the input is all whitespace; otherwise it starts and ends with non-whitespace and is no longer than the input |
| JsString.TrimOffset | src/components/AddRepositoryForm.tsx:20 | where `trim()` starts in the input; everything before it is whitespace |
| JsString.TrimIsInfix | src/components/AddRepositoryForm.tsx:20 | `trim()` is the contiguous slice of the input starting at `TrimOffset`, and only whitespace follows it |
| JsString.EndsWith | src/components/AddRepositoryForm.tsx:29 | a string that ends with `suffix` is some prefix followed by `suffix` |
| JsString.EndsWithAppend | src/components/AddRepositoryForm.tsx:29 | conversely, any string followed by `suffix` ends with `suffix` |
| JsString.TrimIdempotent | src/components/AddRepositoryForm.tsx:38 | trimming an already trimmed value changes nothing |
| JsString.TrimKeepsSuffix | src/components/AddRepositoryForm.tsx:29-38 | trimming keeps any suffix that starts and ends with non-whitespace, so a URL ending in `.git` still ends in `.git` once trimmed |
| AddForm.Validate | src/components/AddRepositoryForm.tsx:17-41 | "fill in all fields" exactly when the name or the URL is all whitespace, whatever the URL's suffix; "must end with .git" exactly when both are non-blank and the untrimmed URL lacks the suffix; otherwise it forwards the trimmed name and URL, the name non-empty and the URL still ending in `.git` |
| AddForm.TrailingSpaceRejected | src/components/AddRepositoryForm.tsx:29-36 | `"x/y.git "` is rejected for its suffix, although its trimmed form ends in `.git` |
| AddForm.Form.constructor | src/components/AddRepositoryForm.tsx:13-14 | both fields start as the empty string |
| AddForm.Form.SetName | src/components/AddRepositoryForm.tsx:50 | typing replaces the name field and leaves the URL field alone |
| AddForm.Form.SetUrl | src/components/AddRepositoryForm.tsx:60 | typing replaces the URL field and leaves the name field alone |
| AddForm.Form.Submit | src/components/AddRepositoryForm.tsx:17-41 | the outcome is `Validate` of the fields as typed, so `onAdd` is called once with the trimmed values on acceptance; acceptance clears both fields; either rejection keeps both as typed |
| RepositoryList.HasUrl | src/pages/Index.tsx:18 | the `some` scan holds exactly when some entry has the URL |
| RepositoryList.NewRepository | src/pages/Index.tsx:29-34 | the new record carries the given name and URL, status `synced`, and the given time as its last sync |
| RepositoryList.Add | src/pages/Index.tsx:17-35 | a present URL leaves the list unchanged; a fresh URL appends exactly one record, `NewRepository(name, url, now)`, with all earlier entries unchanged and in order; the URL is present afterwards; URL uniqueness is preserved |
| RepositoryList.MarkPending | src/pages/Index.tsx:44-50 | same length; every entry keeps its name, URL and lastSync in place; entries with the URL become `pending`, all others keep their status |
| RepositoryList.MarkSynced | src/pages/Index.tsx:53-60 | same length; entries with the URL become `synced` with the new lastSync and keep name and URL; all other entries are unchanged |
| RepositoryList.MarkSyncedAfterPending | src/pages/Index.tsx:45-59 | phase two applied to the phase-one list equals phase two applied to the original list |
| RepositoryList.SyncAbsentIsIdentity | src/pages/Index.tsx:44-59 | for a URL not in the list, both phases leave the list unchanged |
| RepositoryList.PendingKeepsUrls | src/pages/Index.tsx:44-50 | phase one neither adds nor removes any URL and keeps URL uniqueness |
| RepositoryList.SyncedKeepsUrls | src/pages/Index.tsx:53-60 | phase two neither adds nor removes any URL and keeps URL uniqueness |
| RepositoryList.OverlappingSyncLeavesPending | src/pages/Index.tsx:44-59 | when a sync of `b` finishes from a snapshot taken after a sync of another URL `a` started, every entry with URL `a` is still `pending` |
| RepositoryList.Remove | src/pages/Index.tsx:70 | no entry with the URL remains, and the result is no longer than the input |
| RepositoryList.RemoveMembers | src/pages/Index.tsx:70 | a record survives the delete exactly when it was in the list and its URL differs |
| RepositoryList.RemoveConcat | src/pages/Index.tsx:70 | delete distributes over concatenation, so survivors keep their original order |
| RepositoryList.RemoveAbsentIsIdentity | src/pages/Index.tsx:70 | deleting an absent URL is the identity |
| RepositoryList.RemoveIdempotent | src/pages/Index.tsx:70 | deleting twice equals deleting once |
| RepositoryList.RemoveFirst | src/pages/Index.tsx:70 | with unique URLs, deleting the first entry's URL drops just that entry |
| RepositoryList.RemoveAt | src/pages/Index.tsx:70 | with unique URLs, deleting the URL of entry `k` removes exactly that entry, keeping the rest in order |
| RepositoryList.RemoveLength | src/pages/Index.tsx:70 | with unique URLs, the length drops by exactly one if the URL was present and is unchanged otherwise |
| RepositoryList.RemoveKeepsUnique | src/pages/Index.tsx:70 | deleting preserves URL uniqueness |
| RepositoryList.RemoveUndoesAdd | src/pages/Index.tsx:17-75 | deleting the URL just added with a successful add gives back the list from before the add |
| RepositoryList.DeleteDuringSyncReappears | src/pages/Index.tsx:53-59 | a record deleted after phase one is present again after phase two |
| RepositoryList.AddDuringSyncLost | src/pages/Index.tsx:53-59 | a record added after phase one is absent after phase two |
| RepositoryList.Dashboard.constructor | src/pages/Index.tsx:14 | the list starts empty, with unique URLs |
| RepositoryList.Dashboard.AddRepository | src/pages/Index.tsx:17-41 | reports "already exists" exactly when the URL was present, and then changes nothing; the new list is `Add` of the old one; URL uniqueness is kept |
| RepositoryList.Dashboard.SyncStart | src/pages/Index.tsx:43-52 | the new list is `MarkPending` of the old one; returns the old list, the snapshot the timer captured; uniqueness is kept |
| RepositoryList.Dashboard.SyncFinish | src/pages/Index.tsx:53-60 | the new list is `MarkSynced` of the captured snapshot, whatever the current list is; unique if the snapshot was |
| RepositoryList.Dashboard.Delete | src/pages/Index.tsx:69-75 | the new list is `Remove` of the old one; uniqueness is kept |
| RepositoryList.SyncUninterrupted | src/pages/Index.tsx:43-67 | a sync with nothing in between is phase two on the original list; for an absent URL the list is unchanged |
| RepositoryList.DeleteDuringSync | src/pages/Index.tsx:43-75 | sync start, then delete, then the timer: the deleted record is back in the list |

## Left out

- Toast notifications are left out because they are calls into UI code. The
  add outcome (`AddOutcome`) and the submit outcome (`SubmitOutcome`) stand
  in for which notification is raised. The delete and sync "success"
  notifications carry no information and are not modelled.
- `setTimeout` and the 2000 ms delay are left out because they are
  event-loop timing. The timer is the separate `SyncFinish` call. Nothing
  forces it to come after `SyncStart`, or to be called at all.
- `new Date().toLocaleString()` is left out because it reads the wall clock
  and depends on locale. It is a `Timestamp` (string) parameter `now`. For
  this reason the model cannot say that a new sync time is later than the
  old one.
- React's `useState`/`useToast` machinery and `e.preventDefault()` are left
  out because they are framework plumbing. Each state variable is a class
  field, and each setter call is an assignment.
- All JSX rendering is left out because it is UI, including the count shown
  at src/pages/Index.tsx:95.
- The repository card is not part of this model. It is rendering only: the
  status colours and disabling the sync button while `pending`. The sync
  handler itself has no such guard.
- JavaScript strings are sequences of UTF-16 code units, while Dafny `char`
  is a Unicode scalar value. The model treats a string as a sequence of
  scalar values. Every code point `trim` strips lies in the Basic
  Multilingual Plane, so no surrogate handling is involved.
- The `error` status is declared, but nothing in the code produces it.
