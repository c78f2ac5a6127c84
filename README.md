# Screenshot retry loop and file naming

This project models the core of a small Python service. The service logs into a
web portal once a day and saves a full-page screenshot. Two pieces of its logic
are modelled and proved:

- **The retry loop** `take_screenshot_with_retry(config, max_retries, delay)`
  (module `Retry`, file `Retry.dfy`). The loop calls the screenshot action at
  most `max_retries` times and stops at the first success. After each failure
  it prints a retry notice and sleeps a fixed `delay`, except after the last
  allowed attempt. There it prints "Max retries reached. Skipping for now." and
  returns normally. The action is abstract. It is a function from the 0-based
  attempt index to an `Outcome`: `Success`, or `Failure(cause)` for an
  `Exception` with that message. The loop's printed lines and sleeps become a
  trace of `Event`s. `TakeScreenshotWithRetry` is the loop itself, with its
  `for`, `break` and sleeps. `Retry` is the function it is proved equal to.
  The lemmas about `Retry` state the counting and ordering properties.
- **The screenshot path** (module `ScreenshotPath`, file `ScreenshotPath.dfy`).
  The path is `os.path.join(directory, "screenshot_" + stamp + ".png")`, and
  `stamp` is the capture time formatted as `%Y-%d-%m_%H-%M-%S`. In that format
  the day comes before the month. The model gives the formatting, a parser that
  reads a stamp and a file name back, and proofs that the two are inverse in
  both directions.

Two behaviours of the code are worth knowing:

- When every attempt fails, the loop prints the give-up line and returns
  normally (main.py:28-29). It never reports the exhausted retries to its
  caller, and the model returns normally in that case too.
- `time.sleep` raises for a delay it rejects. CPython converts the delay to
  a signed 64-bit count of nanoseconds. It raises `ValueError` for a negative
  delay and `OverflowError` once the count would reach 2^63, which is about
  9.2e9 seconds. The sleep is called inside the `except` handler
  (main.py:27), so that error is not caught. It leaves the function right
  after the first "Retrying in" line. The model records this as
  `Completion.SleepRaised`, with `Retry.SleepAccepted` as the condition for
  an accepted delay. `Retry.ReturnsNormally` states exactly when it happens:
  a rejected delay, at least two allowed attempts, and a failed first
  attempt. Every other call returns normally.

## Model

| member | source | states |
|---|---|---|
| `Retry.RetryFrom` | main.py:18-29 | No contract of its own. It computes what the loop does from a given 0-based attempt on. With no attempt left, it returns with nothing printed. A success prints the success line and stops. A failure with attempts left prints the failure and the retry notice. If `time.sleep` then rejects the delay, the call raises; otherwise it sleeps and continues with the next attempt. The last allowed failure prints the failure and the give-up line and returns. |
| `Retry.Retry` | main.py:17-29 | No contract of its own. It is one call of the loop: `RetryFrom` from attempt index 0. |
| `Retry.TakeScreenshotWithRetry` | main.py:17-29 | The loop produces exactly the trace and the way of ending that `Retry` gives for the same action, `max_retries` and `delay`. |
| `Retry.AttemptsNumbered` | main.py:18-24 | The action is invoked for attempts 1, 2, 3, … in order. It is invoked at most `max(max_retries, 0)` times, and at least once when `max_retries` is positive. |
| `Retry.NoAttemptsAllowed` | main.py:18 | When `max_retries <= 0`, `range` is empty. There are no invocations, sleeps or messages, and the call returns. |
| `Retry.SucceedsAtAttempt` | main.py:18-22 | Attempts 1..k-1 fail and attempt k (k <= max_retries) succeeds, and either `time.sleep` accepts the delay or k = 1. Then there are exactly k invocations and k-1 sleeps, no give-up line, and the call returns. The success of attempt k is the last event. |
| `Retry.ExhaustsAllAttempts` | main.py:18-29 | Every allowed attempt fails, and either `time.sleep` accepts the delay or only one attempt is allowed. Then there are exactly `max_retries` invocations, `max_retries - 1` sleeps, and one give-up line as the last event. The call returns normally. |
| `Retry.GaveUpExactlyWhenAllFail` | main.py:25-29 | The give-up line appears if and only if all `max_retries` attempts fail and the loop reaches the last one. When it appears, it appears once and is the last event. |
| `Retry.FixedDelayPerFailure` | main.py:25-27 | Every sleep lasts exactly `delay`. The number of sleeps is the number of failures, minus the final allowed failure, minus the failure whose sleep raised. |
| `Retry.SleepOnlyBetweenAttempts` | main.py:24-27 | Each sleep comes right after a failure and its "Retrying in" line. The next attempt follows it, so no sleep follows the last attempt. |
| `Retry.ReturnsNormally` | main.py:23-29 | A failed attempt never propagates out of the call. The only way out by exception is `time.sleep` rejecting the delay: a negative one, or one of 2^63 nanoseconds or more. That happens exactly when the delay is rejected, at least two attempts are allowed and the first one fails. The trace is then the first failure followed by the retry notice. |
| `Retry.HugeDelayRaises` | main.py:25-27 | With a delay of 10^10 seconds, two allowed attempts and a failed first one, the call raises after the retry notice. The second attempt is never made. |
| `Retry.ZeroDelayRetries` | main.py:25-27 | A delay of 0 is accepted. A failure followed by a success gives the failure, the notice, a zero-length sleep and the success, and the call returns. |
| `ScreenshotPath.Stamp` | main.py:63 | No contract of its own. It computes `strftime("%Y-%d-%m_%H-%M-%S")`: the year in four digits, then day, month, hour, minute and second in two digits each, separated by `-` except for `_` before the hour. Its properties are stated by `StampRoundTrip`, `StampInverse` and `DayBeforeMonth`. |
| `ScreenshotPath.FileName` | main.py:64 | No contract of its own. It computes `"screenshot_" + stamp + ".png"`. Its properties are stated by `FileNameRoundTrip` and `FileNameInjective`. |
| `ScreenshotPath.SavePath` | main.py:59-64 | No contract of its own. It computes `os.path.join(directory, file name)`. Its properties are stated by `SavePathRoundTrip`. |
| `ScreenshotPath.Join` | main.py:64 | This is POSIX `os.path.join(a, b)`. An absolute `b` is the result. Otherwise the result is `a`, then one `/` exactly when `a` is non-empty and does not end in `/`, then `b`. |
| `ScreenshotPath.StampRoundTrip` | main.py:63 | The `%Y-%d-%m_%H-%M-%S` stamp of a valid timestamp has 19 characters and reads back as that timestamp. |
| `ScreenshotPath.StampInverse` | main.py:63 | Every string that reads as a timestamp is a valid timestamp's stamp, character for character. |
| `ScreenshotPath.FileNameRoundTrip` | main.py:64 | `screenshot_<stamp>.png` has 34 characters and reads back as its capture time. |
| `ScreenshotPath.FileNameInjective` | main.py:63-64 | Screenshots taken at different seconds get different file names. |
| `ScreenshotPath.DayBeforeMonth` | main.py:63 | 7 March 2024, 09:05:00 is stamped `2024-07-03_09-05-00`, with the day before the month. |
| `ScreenshotPath.SavePathRoundTrip` | main.py:59-64 | The save path is the directory, then a separator if the directory does not already end in one, then the file name. Its last component reads back as the capture time. |

## Left out

- Browser automation in `take_screenshot` (main.py:32-71) is left out: driver setup, page load, element lookup, credential entry, the 5-second wait, the screenshot write and `driver.quit()`. These are foreign library calls and I/O. They appear only as the per-attempt `Outcome`. That includes the failure of `driver.quit()` when `webdriver.Chrome` itself raised.
- `os.makedirs` (main.py:60), `datetime.now()` (main.py:63) and `print` are left out as real effects. The capture time is a parameter. Printed lines and sleeps are trace events, not real output or real time.
- `load_config` and YAML parsing (main.py:12-14) are file I/O plus a library, so they are left out.
- The startup run, the daily scheduling through the `schedule` library, and the endless poll loop (main.py:73-88) are left out. The `schedule` library and its "HH:MM" parsing are not part of this model, and the poll loop does not terminate.
- Exceptions that are not `Exception` subclasses, such as `KeyboardInterrupt` raised inside the action, escape the `except` clause. They are not modelled: `Outcome` has no case for them.
- A `max_retries` that is not an integer, or a `delay` that is not a number, makes Python raise `TypeError`. This is not modelled: `max_retries` is an `int` and `delay` is a `real`.
- Retry.ReturnsNormally: the delay is a real number, so two cases cannot be expressed. A NaN delay, which `time.sleep` rejects with `ValueError`, and an infinite delay, which it rejects with `OverflowError`, are not modelled. The overflow bound is exact for integer delays; for float delays the model ignores how `delay * 10^9` is rounded to a double near the bound.
- ScreenshotPath.Stamp: years below 1000 are written zero-padded to four digits. Some platforms' `strftime`, glibc among them, write them unpadded. Such years cannot come from `datetime.now()` on a current clock.
- ScreenshotPath.Join models POSIX `os.path.join` only. Windows path joining (drive letters, `\` separators) is not modelled.
