# rickpy progress bar and shift cipher, in Dafny

rickpy is a small utility library for interactive notebook sessions. This
project models its two pieces of pure logic, both in `rickpy/__init__.py`:

- **`ProgressBar`**: the text line it renders for step `k` of `n`. The line is
  a 50-character bracketed bar with `-` cells for the completed fraction. The
  `"NN%"` text is spliced in at offset 24. Then comes a space, the label
  template filled in with `k` and `n`, and ` (status)` when the status is
  non-empty. `animate` produces the erase-and-redraw string (`\r`, spaces over
  the previous line, `\r`, the new line). `log` appends to the message log. The
  notebook scrollback shows the newest five messages, newest first.
- **`encrypt` / `decrypt` / `is_encrypted`**: each byte is shifted by `n`
  modulo 256, and the shifted bytes are Base64-encoded as in section 4 of
  RFC 4648. The marker `%%%%%` goes in front. `decrypt` drops the first five
  characters, decodes the rest and shifts each byte back.

Modules:

- `Progress` (`progress.dfy`): the bar state as an immutable `ProgressBar`
  value, with the renderer, `animate`, `log` and the scrollback as pure
  functions.
- `Cipher` (`cipher.dfy`): the shift cipher.
- `Base64` (`base64.dfy`): an RFC 4648 encoder and a strict decoder.
- `Decimal` (`decimal.dfy`): the `%d` rendering of naturals and its inverse.
- `Seqs` (`seqs.dfy`): Python's clamping slices, negative-step slices and
  string repetition.
- `Wrappers` (`wrappers.dfy`): `Option`.

Modelling choices:

- The percentage is `k*100 div n`. This is exact integer division, as Python 2's
  `/` does on integers.
- `round(percent/100.0 * 48)` is modelled as `(percent*48 + 50) div 100`.
  `FillCount` proves that this is the integer *strictly* nearest to
  `percent*48/100`. So no tie ever arises, and Python 2's and Python 3's
  rounding rules give the same count.
- Python slices clamp to the string's bounds, and `' ' * m` is empty for
  `m <= 0`. Both are modelled that way, so rendering is defined for every
  `k >= 0`, including `k > n`. In that case the bar is not clamped and can be
  longer than 50. The shape facts (exact width, closing bracket, cell
  contents) are stated for `0 <= k <= n`.
- Width 50, fill character `-` and scrollback size 5 are constants.
  `ProgressBar.__init__` hard-codes them and never takes them as arguments.
- The label template is a sequence of tokens: literal text, `{k}` and `{n}`.
- Whether a notebook kernel is attached is a boolean argument to `New`. The
  code probes `sys.modules` for it instead.
- `log` re-emits the stored `content` string without re-rendering. So the
  model's `Log` changes only the message log. It does not re-render with the
  last step and status.
- Text for the cipher is a sequence of bytes (0..255), because the code
  relies on Python 2 `str` semantics: it passes a `str` to `b64encode`.
  Python's `%` with a positive modulus never returns a negative value, and
  Dafny's `%` agrees. So the shifts hold for negative `n` too.
- A malformed Base64 text makes `b64decode` raise an exception. `Decrypt`
  models this as `None`.

## Model

| member | source | states |
|---|---|---|
| Progress.Percent | rickpy/__init__.py:73 | the percentage `p` is `floor(k*100/n)`: `p*n <= k*100 < (p+1)*n`. It is at most 100 when `k <= n`, 100 at `k = n` and 0 at `k = 0` |
| Progress.FillCount | rickpy/__init__.py:74 | the fill count is the integer strictly nearest to `p*48/100`, so no tie arises. It is at most 48 for `p <= 100`, 48 at 100% and 0 at 0% |
| Progress.PercentText | rickpy/__init__.py:77 | `'%d%%'`: decimal digits that read back as `p`, with no leading zero, then `%`. It is at most 4 characters for `p <= 100` |
| Progress.RawBar | rickpy/__init__.py:75-76 | the unspliced bar is `max(50, c+2)` long and starts with `[` and ends with `]`. Interior cell `i` is the fill character when `i <= c` and a space otherwise |
| Progress.Overlay | rickpy/__init__.py:78-79 | the splice puts the percentage text at offset 24 and keeps every other position's character. The result is `max(len, 24+len(pct))` long |
| Progress.Bar | rickpy/__init__.py:72-79 | the percentage text sits at offset 24 for every `k`. For `k <= n` the bar is exactly 50 wide, runs from `[` to `]`, and each interior cell outside the overlay is fill or space by the fill count |
| Progress.FullBar | rickpy/__init__.py:73-79 | at `k = n` the overlay reads `100%` and every other interior cell is `-` |
| Progress.EmptyBar | rickpy/__init__.py:73-79 | at `k = 0` the overlay reads `0%` and every other interior cell is a space |
| Progress.Format | rickpy/__init__.py:80 | `progress.format(k=k, n=n)` on a token template: the empty template gives the empty text, the first token's text comes first, and a single token gives exactly its own text. `FormatAppend` and `DefaultLabel` give the rest |
| Progress.FormatAppend | rickpy/__init__.py:80 | filling in a concatenated template is the concatenation of the filled-in parts |
| Progress.DefaultLabel | rickpy/__init__.py:47 | the default template renders as `<k> out of <n> complete` |
| Progress.SlashLabel | rickpy/__init__.py:80 | with template `{k}/{n}`, total 4 and step 2, the text `2/4` follows the bar and its space |
| Progress.Suffix | rickpy/__init__.py:81-82 | the status suffix is empty exactly when the status is empty. Otherwise it is ` (` + status + `)` |
| Progress.Line | rickpy/__init__.py:75-82 | the line is the bar, one space, then the label. It ends right after the label exactly when the status is empty. Otherwise ` (status)` follows |
| Progress.Update | rickpy/__init__.py:71-83 | `_update` records step `k` and the rendered line. `last_length` equals the line's length, and no other field changes |
| Progress.New | rickpy/__init__.py:47-59 | construction renders step 0 with an empty status, records its length and keeps the given status. The log and content start empty, and the state is valid |
| Progress.Animate | rickpy/__init__.py:61-68 | a missing step means `n` and a missing status means the stored one. The content is `\r`, then previous-length spaces, then `\r`, then the new line. The log and stored status are kept, and the state is valid when the step is at most `n` |
| Progress.AnimateTwice | rickpy/__init__.py:61-68 | animating the same step and status twice gives the same line. The second redraw erases exactly the first line's length |
| Progress.AnimateIgnoresHistory | rickpy/__init__.py:71-83 | the rendered line depends only on total, template, step and status, not on earlier state |
| Progress.Log | rickpy/__init__.py:114-116 | one entry is added at the end. Earlier entries and every other field are unchanged, and validity is preserved |
| Progress.LogInOrder | rickpy/__init__.py:114-115 | logging `a` and then `b` appends exactly `[a, b]` in that order |
| Progress.Scrollback | rickpy/__init__.py:96-99 | the notebook view shows `min(5, len(log))` messages, newest first: entry `i` is `log[len-1-i]` |
| Progress.ScrollbackAfterLog | rickpy/__init__.py:98 | a new message heads the scrollback and the previous view shifts down one place, losing its oldest entry once five are shown |
| Progress.ReadPercentOfLine | rickpy/__init__.py:73-83 | reading the number before `%` at offset 24 of any rendered line gives back `floor(k*100/n)` |
| Decimal.FromNat | rickpy/__init__.py:77 | `%d` produces the shortest digit string, with no leading zero and exactly as many digits as the value needs |
| Decimal.ToNatFromNat | rickpy/__init__.py:77 | reading a rendered number gives back the number |
| Seqs.ReverseSlice | rickpy/__init__.py:98 | a step -1 slice with Python's stop normalisation lists elements from the last one backwards |
| Base64.Encode | rickpy/__init__.py:128 | the encoding has `4*ceil(len/3)` characters, all from the alphabet or the pad, and only the last group can hold pads |
| Base64.EncodePadBits | rickpy/__init__.py:128 | the bits a pad leaves unused are zero, as section 3.5 of RFC 4648 requires: 4 zero bits in the character before `==`, 2 before `=` |
| Base64.Rfc4648Vectors | rickpy/__init__.py:128 | the encoder gives the section 10 test vectors of RFC 4648 for the empty input, `f`, `fo` and `foo` |
| Base64.Decode | rickpy/__init__.py:135 | `b64decode`, strict: a text it accepts is whole groups of four characters, and `m` groups give between `3m-2` and `3m` bytes. The low bits a pad leaves unused are ignored. The inverse property is `DecodeEncode` |
| Base64.DecodeEncode | rickpy/__init__.py:128-135 | decoding an encoding gives back the bytes, for every byte sequence |
| Base64.EncodeInjective | rickpy/__init__.py:128 | different byte sequences never share an encoding |
| Cipher.ShiftInverse | rickpy/__init__.py:128-134 | `(b-n+256) % 256` undoes `(b+n) % 256` and vice versa, for every integer shift |
| Cipher.Encrypt | rickpy/__init__.py:126-128 | the result starts with `%%%%%`, has `5 + 4*ceil(len/3)` characters, and after the prefix holds only Base64 characters |
| Cipher.Decrypt | rickpy/__init__.py:132-135 | decryption fails exactly when the text after the first five characters is not Base64. On success, re-shifting the result gives the decoded bytes |
| Cipher.IsEncrypted | rickpy/__init__.py:138-139 | true exactly when `%%%%%` is a prefix of the text |
| Cipher.DecryptEncrypt | rickpy/__init__.py:126-135 | `decrypt(encrypt(x, n), n) == x` for every byte sequence and shift |
| Cipher.DefaultShiftRoundTrip | rickpy/__init__.py:126-135 | `encrypt` and `decrypt` called without a shift use 37, and `decrypt(encrypt(x)) == x` |
| Cipher.DefaultShiftExample | rickpy/__init__.py:126-128 | `encrypt('a')` with the default shift is `%%%%%hg==` |
| Cipher.EncryptIsRecognised | rickpy/__init__.py:126-139 | every encrypted text is recognised as encrypted |
| Cipher.EncryptInjective | rickpy/__init__.py:126-128 | with a fixed shift, two encryptions are equal exactly when the plaintexts are |
| Cipher.DecryptIgnoresPrefix | rickpy/__init__.py:135 | decryption never inspects the five leading characters |
| Cipher.ShiftPeriodic | rickpy/__init__.py:128 | shifts that differ by a multiple of 256 encrypt identically |

## Left out

- Writing to the output (`write`, `print`, `sys.stdout.flush`, IPython's `clear_output`) is left out. Only the strings handed to the output are modelled.
- `write_log_no_kernel` is left out. It emits ANSI cursor-up escapes to a terminal and is pure output.
- `report` is left out. Its state change is `Animate(b, None, None)`, and the rest is printing.
- The `'ipykernel' in sys.modules` probe is left out. It is environment introspection, and the kernel flag is an argument instead.
- General `str.format` is left out: other fields, format specs, `{{` escapes, and errors for unknown fields. Templates are token sequences of literals, `{k}` and `{n}`.
- Floating point in `percent` and `n_chars` is left out. It is replaced by exact integer arithmetic. Python 2's integer `/` is exact, and the rounding is proved never to tie.
- `n <= 0` is left out, and every renderer requires `n > 0`. With `n = 0`, construction already fails in the source: `__init__` divides by `n` when it renders step 0. With `n < 0`, Python 2 renders without an error: `n = -4`, `k = 2` gives `-50%` over a 74-character bar. This is a caller error that the source does not check, and the model excludes it.
- Negative steps are left out. Steps are naturals.
- Progress.Bar: for `k > n` the contract states only the width lower bound, the opening bracket and the overlay position. It does not state the exact cell contents of the overflowing bar.
- Base64.Decode: strict. Python's `b64decode` silently discards characters outside the alphabet and tolerates some padding irregularities. The model treats them as decoding errors. On every text that `encrypt` produces, the two agree.
- `tic`, `toc`, `get_outputs`, `get_fig`, `get_table`, `refresh_class`, `refresh_objects`, `use_dev_packages`, `git_version` and `get_sheet` are left out. They are wall-clock timing, file and notebook reads, runtime reflection, `sys.path` edits, a subprocess call and an HTTP fetch, and none has pure logic to model.
- `setup.py` is left out. It is packaging metadata.
