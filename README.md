# Log scanner selection rule

A model of the scan at the heart of `parse_logs.py`: the script reads a
newline-delimited JSON log (compact layout: `@t` timestamp, `@l` level,
`@mt` message template, `@x` exception text), walks its lines from the
last to the first, and for each line

1. applies a cheap pre-filter on the raw text: the line must contain
   `"@l":"Error"` or `"@l":"Warning"`;
2. decodes the line as JSON, skipping it silently when the decoder fails;
3. keeps the record only if its template (`@mt`, the empty string when
   absent) contains `Spotify`;
4. prints `[timestamp] level: template` for the kept record, then, if the
   record has `@x`, a line `   Exception: ` + the first 200 characters of
   it + `...`, and only then counts the record;
5. stops once 10 records have been counted (the check sits at the top of
   the loop, so the scan stops at the line after the tenth kept one).

The model is one module, `ParseLogs` (file `parse_logs.dfy`), plus an
`Option` type in `Wrappers` (`wrappers.dfy`).

- The JSON decoder is a parameter `parse: string -> Option<Entry>`; every
  result is proved for every decoder. `None` stands for `json.loads`
  raising.
- `Entry` has four `Option<string>` fields. An absent `@t` or `@l` prints
  as `None`, as Python's f-string does for `dict.get` of a missing key.
- `HitsFrom(parse, lines, lo)` is the specification of the scan: the
  qualifying lines of `lines[lo..]`, most recent first, each paired with
  its line index. `Selection` keeps the first 10 of `HitsFrom(parse,
  lines, 0)`, and `Output` is what gets printed for them.
- `Filter(parse, Reversed(lines))` is an independent reference definition,
  "the qualifying records of `reversed(lines)`". `SelectionOfReversed`
  proves that the selection is its first 10 elements.
- `Scan` is the loop itself: a `while` over the indices from the last line
  down, with the counter, the early `break` and the per-line body
  `ScanLine`. Its postcondition ties the printed lines and the final count
  to the specification. A ghost result `stop` gives the index of the
  oldest line it examines.
- The `'Reason' in msg` branch of the source is kept as an empty branch.
  `Scan`'s postcondition equates its output with `Output`, which never
  mentions `Reason`, so that branch provably changes neither output nor
  count.

## Model

| member | source | states |
|---|---|---|
| `ParseLogs.Scan` | parse_logs.py:16-32 | The printed lines equal `Output(parse, lines)`, which is also the rendering of the first 10 qualifying records of `reversed(lines)`. The final `count` equals the number of selected records and is at most 10. The scan examines no line older than the tenth kept one, and it examines every line when fewer than 10 are kept. The `Reason` branch has no effect. |
| `ParseLogs.ScanLine` | parse_logs.py:19-32 | A line is counted exactly when it passes the raw severity pre-filter, decodes, and has `Spotify` in its template. A counted line prints its record line followed by its exception line. A line that is not counted prints nothing. |
| `ParseLogs.ScanStep` | parse_logs.py:17-30 | Examining one more line, going backwards, leaves the hits unchanged if the line does not qualify. Otherwise it appends that line's hit, and the printed output grows by that record's lines. |
| `ParseLogs.SelectionSound` | parse_logs.py:16-30 | At most 10 records are selected. Each one comes from a line that contains `"@l":"Error"` or `"@l":"Warning"` in its raw text, parses to exactly that record, and has `Spotify` in its template. The selected lines are in strictly decreasing file position. |
| `ParseLogs.SelectionMaximal` | parse_logs.py:16-32 | A qualifying line that is not selected exists only when 10 are selected, and that line is older than all 10. So with fewer than 10 selected, every qualifying line is selected, and otherwise the 10 selected are the 10 most recent qualifying lines. |
| `ParseLogs.SelectionOfReversed` | parse_logs.py:16-18 | The selected records are exactly the first `min(10, n)` records of the qualifying lines of `reversed(lines)`, where `n` is the number of such lines. |
| `ParseLogs.RejectedLineIsInert` | parse_logs.py:19-32 | Removing a line that fails the pre-filter, fails to parse, or lacks the keyword changes neither the selected records, nor their number (the final count), nor the printed output. Such a line is not counted and does not stop the scan. |
| `ParseLogs.UnparseableLineIsSkipped` | parse_logs.py:20-32 | A line the decoder rejects is skipped silently: the count and the output are the same as if the line were absent. |
| `ParseLogs.SelectionIgnoresOtherFields` | parse_logs.py:19-23 | For any two decoders that agree, line by line, on whether decoding succeeds and on the template, the same lines are selected. The decoded level, timestamp and exception never influence which lines are selected. |
| `ParseLogs.HitsFromIgnoresOtherFields` | parse_logs.py:17-23 | The same statement for the hits collected from any start index `lo`. |
| `ParseLogs.SeverityIsCheckedOnRawText` | parse_logs.py:19-24 | The severity test reads the raw text, not the decoded level. Take a line `{"@l":"Error","@l":"Information","@mt":"Spotify"}` that decodes with the last `@l` winning: it is selected, with level `Information`. |
| `ParseLogs.HitsFrom` | parse_logs.py:17-23 | The specification of the backward scan from index `lo`: at most one hit per examined line, each naming a line at or after `lo`. |
| `ParseLogs.Selection` | parse_logs.py:16-18 | The selected hits: at most 10, and no more than there are lines, each naming a line of the file. |
| `ParseLogs.Output` | parse_logs.py:24-29 | What the scan prints: at least one and at most two lines per selected record, so at most 20 lines. |
| `ParseLogs.ScanDone` | parse_logs.py:17-18 | When the scan has examined every line, or has collected 10 hits, the hits collected so far are the selection. Its second clause holds however the scan ends: the output is always the rendering of the first 10 qualifying records of `reversed(lines)`. |
| `ParseLogs.HitsFromSound` | parse_logs.py:17-23 | Every hit that the backward scan collects from index `lo` on is a qualifying line at or after `lo`, carrying the record that line decodes to. Hits come in reverse file order. |
| `ParseLogs.HitsFromComplete` | parse_logs.py:17-23 | Every qualifying line at or after `lo` is among the hits collected from `lo`. |
| `ParseLogs.HitsFromExtends` | parse_logs.py:17-18 | Scanning further back only appends: the hits from a later start index are a prefix of the hits from an earlier one. |
| `ParseLogs.EntriesOfHitsFrom` | parse_logs.py:17-23 | The records of the hits from `lo` are the qualifying records of `reversed(lines[lo:])`, in order. |
| `ParseLogs.Filter` | parse_logs.py:19-23 | The reference filter returns no more records than there are lines, and each of its records is the decoding of some qualifying line. |
| `ParseLogs.FilterAppend` | parse_logs.py:19-23 | Filtering two concatenated runs of lines gives the concatenation of their filtered records. |
| `ParseLogs.Reversed` | parse_logs.py:17 | `reversed(s)` has the length of `s`, and its element `k` is `s[len(s) - 1 - k]`. |
| `ParseLogs.ReversedAppend` | parse_logs.py:17 | Reversing `a + b` gives the reversal of `b` followed by the reversal of `a`. |
| `ParseLogs.ContainsIff` | parse_logs.py:19 | The substring test used by the pre-filter and the keyword test holds exactly when the pattern occurs at some position of the text. |
| `ParseLogs.PrefilterIff` | parse_logs.py:19 | `PassesPrefilter` holds exactly when `"@l":"Error"` or `"@l":"Warning"` occurs somewhere in the raw, undecoded line. |
| `ParseLogs.QualifiesIff` | parse_logs.py:19-23 | `Qualifies` holds exactly when three things hold: a severity marker occurs in the raw line, the line decodes, and `Spotify` occurs in the decoded template. |
| `ParseLogs.NoTemplateIsRejected` | parse_logs.py:22-23 | `@mt` defaults to the empty string, which cannot hold the keyword. So a decoded record without `@mt` is never kept, whatever its severity. |
| `ParseLogs.RecordLineParts` | parse_logs.py:24 | `RecordLine` is `[`, the timestamp, `] `, the level, `: `, and then the template, in that order and with nothing else. The timestamp and level are spelled as `entry.get` prints them: their text, or `None` when absent. |
| `ParseLogs.Prefix` | parse_logs.py:29 | The slice `s[:n]` has length `min(n, len(s))` and is a prefix of `s`. |
| `ParseLogs.ExceptionLine` | parse_logs.py:29 | The exception line is `   Exception: `, then the first `min(200, len(@x))` characters of the exception text, then `...`. |
| `ParseLogs.Render` | parse_logs.py:24-29 | A kept record prints its record line first. A record with `@x` prints exactly one more line, its exception line, and a record without `@x` prints nothing more. |
| `ParseLogs.EmittedLength` | parse_logs.py:24-29 | A run of kept records prints at least one and at most two lines per record. |
| `ParseLogs.EmittedAppend` | parse_logs.py:24-29 | The output for two runs of kept records is the output for the first run followed by the output for the second. |

## Left out

- The file-existence check, the message and `exit()` when the log is missing, and reading the file: `lines` is the input (parse_logs.py:6-11).
- The two heading prints, including the total line count (parse_logs.py:13-14): they are constant I/O around the scan.
- The internals of `json.loads`: the decoder is an uninterpreted parameter.
- Python's dynamic typing. The model cannot express a JSON array or scalar in place of an object, or a non-string `@mt`, `@t`, `@l` or `@x`. All `Entry` fields are optional strings.
- A non-string `@mt` is not modelled. In the source, a number, a boolean or `null` makes `'Spotify' in msg` raise a `TypeError`, which the bare `except` swallows, so the line is skipped. A JSON array or object does not raise: `in` then tests the list's elements or the object's keys. So `"@mt":["Spotify"]` is selected, printed as `['Spotify']` and counted, while `"@mt":["Spotify x"]` is not selected.
- A non-string `@x` is not modelled. For `null`, a number, a boolean or an object, `entry['@x'][:200]` raises after the record line has been printed, and the bare `except` swallows the error. The record line is therefore output without being counted. A JSON array does not raise: it is sliced to its first 200 elements and printed as a Python list followed by `...`, and the record is counted. With `exception: Option<string>`, the print-without-count path cannot arise.
- `print` is assumed never to fail. In the source, an error raised by `print` at parse_logs.py:24 or parse_logs.py:29 is caught by the bare `except` at parse_logs.py:31. One example is a `UnicodeEncodeError` on a standard output whose encoding cannot represent the text. The record is then dropped (failure at line 24) or printed without being counted (failure at line 29). The model has no such path.
- Trailing newlines kept by `readlines()` and added by `print` are not modelled: output lines are modelled without their line terminator.
- Strings are modelled as sequences of Unicode scalar values. Python strings are sequences of code points, and `json.loads` accepts lone-surrogate escapes such as `"\ud800"`. A template or exception text holding such a surrogate cannot be represented in the model. The `[:200]` slice at parse_logs.py:29 counts code points, and the model counts scalar values.
- `Tools/inspect_pb.py` and `Tests/SLSKDONET.Tests/bin/Debug/net9.0/Tools/export_to_onnx.py` are not part of this model: they only call TensorFlow and tf2onnx and print the results.
