# UI test-automation utilities: a verified Dafny model

This project models the small, self-contained pieces of logic in a Java/Selenium UI test harness:

- **WaitUtils.retryUntilTrue** (`wait_utils.dfy`) polls a condition at most `attempts` times and stops at the first `true`. An `Exception` from the condition counts as a used attempt. A fixed `Thread.sleep(delayMs)` follows every `false`.
  - The condition is given as the script of its answers: `condition(n)` is what the n-th call does (`True`, `False`, `Throws` for an `Exception`, `Escapes` for an `Error` such as `AssertionError`).
  - An `Error` is not caught by `catch (Exception e)`: it ends the run at once and reaches the caller (`Propagated`).
  - Sleeps appear as `Slept` events in the returned trace.
- **AssertionUtils** (`assertion_utils.dfy`):
  - `assertTrue` is a hard assertion.
  - `softAssertTrue` appends failure messages to one thread's list. A `SoftAssertions` object stands for that list.
  - `assertAll` throws one `AssertionError` that lists every collected message and clears the list.
- **FileUtils.getEvidencePath** (`file_utils.dfy`) maps every character outside `[a-zA-Z0-9-_]` to `_` and builds `target/evidence/<name>_<timestamp>.png`. The timestamp is a parameter.
- **LocatorValidator.validate** (`locator_validator.dfy`) requires every top-level value of a parsed locator file to be a map.
- **LocatorRepository** (`locator_repository.dfy`) holds the locators of each page, keyed `component.key`.
  - It is filled from YAML files whose parsed content and listing order are inputs.
  - An environment file (`home-<env>.yaml`) overwrites keys. A base file only fills keys that are missing.
  - `getLocator` has two distinct errors: a missing page, and a missing (or null) key.

Exceptions become `Outcome`/`Result` values (`outcomes.dfy`). Java nulls that the code tests or trips over become `None` values of `Option`.

Two behaviours of the retry loop are easy to misread, and the model follows the code in both:
- With `attempts <= 0` the code makes no check at all. It does not make one immediate attempt.
- A sleep follows every false check, including the last one. A condition that is always false therefore gives `attempts` sleeps, not `attempts - 1`.

## Model

| member | source | states |
|---|---|---|
| `WaitUtils.RetryUntilTrue` | guide/guide2/ui_automation_utils.java:59-73 | the counting loop with early return, and with the `Error` that escapes the catch, ends exactly as the specification `Retry` and produces its check/sleep trace |
| `WaitUtils.RetryEndsAtFirstDecisive` | guide/guide2/ui_automation_utils.java:60-70 | among checks 1..attempts, take the first that returns true or throws an `Error`: the run returns true iff that check returns true, and the `Error` propagates iff that check throws it |
| `WaitUtils.RetryStopsAtFirstDecisive` | guide/guide2/ui_automation_utils.java:60-70 | a run that returns true or propagates an `Error` checks attempts 1..k in order, where k is that first deciding check, and makes no check after it |
| `WaitUtils.RetryExhausted` | guide/guide2/ui_automation_utils.java:60-72 | if every check returns false or throws an `Exception`, exactly attempts 1..attempts are checked (none when attempts <= 0) and the result is false |
| `WaitUtils.RetrySleepsAfterEachFalse` | guide/guide2/ui_automation_utils.java:61-69 | with delayMs >= 0, a sleep of delayMs comes right after each false check and nowhere else, so no false check ends the trace; a check throwing an `Exception` is swallowed and is not followed by a sleep |
| `WaitUtils.RetryNegativeDelayNeverSleeps` | guide/guide2/ui_automation_utils.java:66-69 | with delayMs < 0, `Thread.sleep` throws into the same catch, so no sleep ever happens |
| `WaitUtils.RetryAlwaysFalse` | guide/guide2/ui_automation_utils.java:60-66 | an always-false condition gives max(attempts, 0) checks and the same number of sleeps |
| `WaitUtils.JavaIncrement` | guide/guide2/ui_automation_utils.java:60 | `i++` on a Java int is `i + 1` taken modulo 2^32 in two's complement |
| `WaitUtils.CounterAfterWraps` | guide/guide2/ui_automation_utils.java:60 | after n turns of the loop the counter that started at 1 holds 1 + n modulo 2^32 in two's complement |
| `WaitUtils.JavaCounterNeverLeavesLoop` | guide/guide2/ui_automation_utils.java:60 | with attempts == Integer.MAX_VALUE, the counter passes `i <= attempts` after any number of turns and repeats its values every 2^32 turns, so a never-true condition keeps the loop running for ever |
| `AssertionUtils.AssertTrue` | guide/guide2/ui_automation_utils.java:85-97 | throws an AssertionError carrying exactly the given message iff the condition is false |
| `AssertionUtils.BuildReport` | guide/guide2/ui_automation_utils.java:111-112 | the StringBuilder loop yields the header followed by one `- message` line per message, in order |
| `AssertionUtils.SoftAssertions.constructor` | guide/guide2/ui_automation_utils.java:83 | a thread's list starts empty |
| `AssertionUtils.SoftAssertions.SoftAssertTrue` | guide/guide2/ui_automation_utils.java:99-106 | a false condition appends the message at the end of the list; a true one leaves the list unchanged |
| `AssertionUtils.SoftAssertions.AssertAll` | guide/guide2/ui_automation_utils.java:108-116 | an empty list gives no failure; otherwise a failure whose message is the report of the collected messages in insertion order; the list is empty afterwards |
| `AssertionUtils.ReportRoundTrip` | guide/guide2/ui_automation_utils.java:111-112 | the report lists the collected messages and nothing else: single-line messages are read back from it exactly |
| `AssertionUtils.ReportAfterSoftFailure` | guide/guide2/ui_automation_utils.java:102-112 | a new soft failure adds exactly its own line at the end of the report |
| `FileUtils.SanitizeAt` | guide/guide2/ui_automation_utils.java:180 | sanitising keeps the length, keeps allowed characters and turns every other character into `_` |
| `FileUtils.SanitizeOnlyAllowed` | guide/guide2/ui_automation_utils.java:180 | every character of a sanitised name is a letter, digit, `-` or `_` |
| `FileUtils.SanitizeKeepsAllowed` | guide/guide2/ui_automation_utils.java:180 | a name made of allowed characters is returned unchanged |
| `FileUtils.SanitizeIdempotent` | guide/guide2/ui_automation_utils.java:180 | sanitising twice equals sanitising once |
| `FileUtils.EvidencePathLayout` | guide/guide2/ui_automation_utils.java:175-182 | for a yyyyMMdd_HHmmss_SSS timestamp, the path is `target/evidence/`, the sanitised name, `_`, the timestamp and `.png`; no `/` follows the directory |
| `FileUtils.EvidencePathOfPlainName` | guide/guide2/ui_automation_utils.java:178-182 | a name that needs no sanitising appears verbatim in the path |
| `LocatorValidator.Validate` | guide/guide2/ui_automation_utils.java:206-213 | passes iff every value is a map; otherwise fails with "Invalid locator format for: " and a key whose value is not a map, in whatever order the map is visited |
| `LocatorRepository.LocatorRepository.GetLocator` | guide/guide2/locator_repository.java:23-33 | a missing page gives the "No locators found for page/component" error and only then; in a present page a missing or null locator gives the "No locator found for key" error; otherwise the stored locator is returned |
| `LocatorRepository.PageNameOfBaseYaml` | guide/guide2/locator_repository.java:45-49 | `home.yaml` is not an environment file and names page `home` |
| `LocatorRepository.PageNameOfEnvYaml` | guide/guide2/locator_repository.java:45-49 | `home-<env>.yaml` is an environment file and names page `home` |
| `LocatorRepository.PageNameAsWrittenOfYmlEnvFile` | guide/guide2/locator_repository.java:45-49 | as written, `home-<env>.yml` is an environment file but names page `home-<env>`, while `home.yml` names `home` |
| `LocatorRepository.PageNameOfAllForms` | guide/guide2/locator_repository.java:45-49 | with the environment suffix also stripped for `.yml`, all four file forms name page `home` |
| `LocatorRepository.MergeEntriesAt` | guide/guide2/locator_repository.java:63-71 | merging stores every entry under `component.key`; keys the file does not produce keep their values; an environment file's last entry for a key wins; a base file's first entry is stored only when the key was missing |
| `LocatorRepository.MergeOrderIndependent` | guide/guide2/locator_repository.java:68-70 | merging a base file and an environment file into a page gives the same page in either order |
| `LocatorRepository.LoadFileIsLocal` | guide/guide2/locator_repository.java:60-71 | loading a file changes only its own page, extends an existing page map rather than replacing it, and leaves every key it produces present (for the source's page naming and the corrected one) |
| `LocatorRepository.LoadFilesOrderIndependent` | guide/guide2/locator_repository.java:42-72 | a base file and an environment file of one page give the same repository and no error whichever the listing returns first |
| `LocatorRepository.LoadYmlEnvFile` | guide/guide2/locator_repository.java:45-49 | as written, loading `home-<env>.yml` creates page `home-<env>` and leaves page `home` unchanged; the corrected loader merges its keys into page `home` |
| `LocatorRepository.LocatorRepository.constructor` | guide/guide2/locator_repository.java:17 | the repository starts with no pages |
| `LocatorRepository.LocatorRepository.LoadLocatorFile` | guide/guide2/locator_repository.java:43-75 | one pass of the file loop changes the repository and the outcome exactly as the specification `LoadFile` with the source's page naming: an unreadable file fails before any change; otherwise the page is created if absent, then the sections are merged; a null document or section fails with "Failed to parse locator file" |
| `LocatorRepository.LocatorRepository.MergeDocument` | guide/guide2/locator_repository.java:63-72 | the section loop merges the entries of the sections up to the first null one into the page, and fails iff there is a null section |
| `LocatorRepository.LocatorRepository.MergeSection` | guide/guide2/locator_repository.java:66-71 | the entry loop puts each entry under `component.key` by the env/base rule, and the page map stays the repository's |
| `LocatorRepository.LocatorRepository.LoadAllLocatorFiles` | guide/guide2/locator_repository.java:35-78 | a missing folder fails with "Locator folder not found at: src/test/resources/locators"; otherwise files are loaded in listing order, stopping at the first failure, as the specification `LoadFiles` with the source's page naming |

## Findings

| source | as written | input that shows it | evidently intended | confidence | as-written member | corrected member |
|---|---|---|---|---|---|---|
| guide/guide2/ui_automation_utils.java:60 | the counter is a Java `int` compared with `i <= attempts` and incremented with `i++` | attempts = 2147483647 and a condition that never returns true: `i` wraps from 2147483647 to -2147483648, which still passes the guard, so the method never returns false | stop after `attempts` checks and return false | high; not executed | `WaitUtils.JavaCounterNeverLeavesLoop` | `WaitUtils.RetryExhausted` |
| guide/guide2/locator_repository.java:46-49 | only `"-" + env + ".yaml"` is stripped before `.yaml` and `.yml` | env `ist`, files `home.yml` and `home-ist.yml`: the second is read as an environment file but lands in page `home-ist`, so it overrides nothing in page `home` | `home-ist.yml` overrides page `home`, as `home-ist.yaml` does | medium (assumes the directory listing returns `.yml` files, which the `.yml` stripping implies); not executed | `LocatorRepository.PageNameAsWrittenOfYmlEnvFile` | `LocatorRepository.PageNameOfAllForms` |

`RetryUntilTrue` uses an unbounded counter. The repository class derives page names as the source does (`AsWritten`). `LoadFile` and `LoadFiles` with `YmlAware` form the corrected loader, which also strips `"-" + env + ".yml"`; the loader lemmas hold for both.

## Left out

- Selenium waits, clicks, typing, JavaScript execution and highlighting (`waitForElementVisible`, `waitForElementInvisible`, `waitUntilPageLoads`, `ElementUtils`, `JavaScriptUtils`): thin wrappers over the browser driver, which is not part of this model.
- Screenshot capture and copying (`ScreenshotUtils`), `mkdirs`, and the clock behind the `SimpleDateFormat` timestamp: file-system and clock I/O. The timestamp is a parameter of `EvidencePath`.
- `WordEvidenceBuilder.captureScreenshot` in `assertTrue`, `StepLogger` calls and slf4j `log` calls (including the retry log lines): reporting side effects with no effect on results.
- `TestDataUtils` (YAML/Excel/JSON loading), Jackson parsing, `ConfigReader.getEnv` and `FileUtils.getAllYamlFiles`: I/O. The parsed files, their listing order and the environment name are inputs. `getAllYamlFiles` is not part of this model.
- Real sleeping time and `InterruptedException`: a sleep is a counted event. An interrupted sleep (caught like any exception) is not modelled; a sleep with a non-negative delay always completes.
- `ThreadLocal` per-thread lists and `ConcurrentHashMap`: a `SoftAssertions` object stands for one thread's list. Concurrency is not modelled.
- The static initialiser's failure mode: when loading throws, the Java class cannot be used at all. The model returns the failure and keeps the pages merged up to that point.
- `ElementLocator` is not part of this model. Locators are values of a type parameter `L`.
- A parsed file's sections and entries are sequences in the map's iteration order. Duplicate keys, which a Java map cannot hold, are allowed, and every lemma holds with them.
- Strings are sequences of Unicode code points. Java strings count UTF-16 units, so the length kept by `Sanitize` is a count of code points.
- `DriverManager`, `LoginPage`, the `BaseComponent` subclasses, `Hooks`, `TestRunner` and `LoginSteps`: WebDriver lifecycle and Cucumber glue with empty or trivial bodies.
- Page and component readiness checks: `isLoaded()` has an empty body in the repository's files, so there is no behaviour to model.
- WaitUtils.RetryUntilTrue: the counter is an unbounded integer. With attempts == Integer.MAX_VALUE and a condition that never returns true, the model returns false after `attempts` checks, while the source never returns (see Findings; `JavaCounterNeverLeavesLoop` states the source's behaviour).
- LocatorRepository.PageNameOfAllForms: like the other page-name lemmas, it is stated for stems (and environment names) with no `-` and no `.`. A stem such as `left-nav` is not covered, because the proof that no suffix match starts inside the stem uses that restriction.
