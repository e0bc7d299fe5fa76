# pssh host specifications, modelled in Dafny

pssh (parallel ssh) takes its target hosts either from host files or from a
`-H` host string. `psshlib/psshutil.py` turns each into a list of
`(host, port, user)` triples. This project models that parsing core:

- `parse_host` splits a token `[user@]host[:port]`. The user is the text
  before the first `@`. The port is the text after the last `:` of what
  follows. A missing field takes its default. (`HostParse.ParseHost`)
- `parse_host_entry` parses one host-file line of one or two whitespace
  fields, `[user@]host[:port] [user]`. It rejects more than two fields, and a
  user given both as `user@` and as a second field. (`HostParse.ParseHostEntry`)
- `parse_host_string` splits a host string at whitespace and makes two passes
  (`HostString.ParseHostString`):
  - The first pass expands every token that matches
    `HOST_PATTERN = (.*)\[(.+)\](.*)`, such as `web[01:10]`, over its index
    range. The indices are zero-padded when an endpoint starts with `0`.
  - The second pass parses every token that does not match.

  A bad range makes the whole call return the `(None, None, None)` sentinel.
- The line filter of `read_host_file` strips each line and skips blank and
  `#` lines. It parses the other lines and keeps the entries that have a host.
  (`HostFile.ReadHostLines`)

The source is Python 2 code: line 111 of `psshlib/psshutil.py` indents with a
tab under a line indented with spaces, which Python 3 refuses. Its strings are
therefore byte strings, and `split()` and `strip()` treat exactly space, tab,
line feed, vertical tab, form feed and carriage return as whitespace
(`Text.IsSpace`).

Files:

- `Wrappers.dfy`: `Option` and `Result`.
- `Text.dfy`: the Python `str` built-ins used:
  - `split()` at the byte-string whitespace characters;
  - `strip()`;
  - the first and last index of a character;
  - `s.split(c)` unpacked into two names.
- `Decimal.dfy`: `int()` on digit strings, `str()` on naturals, and `zfill`.
- `HostParse.dfy`:
  - `parse_host` and `parse_host_entry`;
  - the `HOST_PATTERN` match;
  - the expansion of one bracketed token.
- `HostString.dfy`: `parse_host_string` as a method with its loops, proved
  against the specification function `HostStringSpec`.
- `HostFile.dfy`: the `read_host_file` line loop, proved against `HostLines`.
- `Examples.dfy`: concrete tokens and ranges.

Python's `None` is `Option.None`. The sentinel `(None, None, None)` and the
exceptions the code lets escape are `Result.Failure`, each with its own kind:

- `TooManyFields` and `UserGivenTwice` for `parse_host_entry`;
- `InvalidRange` and `AmbiguousPadding` for the two stderr messages of
  `parse_host_string`;
- `NotOneColon` and `NotAnInteger` for the `ValueError`s of the unpacking and
  of `int()`.

Where the code and the documented behaviour differ, the model follows the code:

- One bad range makes `parse_host_string` fail as a whole. It does not just
  skip that token, and the hosts found before it are lost
  (`HostString.HostStringErrors`).
- A range with an empty side, such as `web[:3]`, contributes no host at all.
  The second pass also skips it, because it matches the pattern
  (`Examples.EmptySideDropped`, `HostParse.BracketedParts`).
- `parse_host_entry`, and with it host files, does no range expansion. The
  brackets stay in the host and the port (`HostParse.EntryKeepsBrackets`).
- A lone `0` endpoint turns padding on, so `[0:10]` is rejected as ambiguous
  padding (`Examples.LoneZeroPads`).

## Model

| member | source | states |
|---|---|---|
| Text.Split | psshlib/psshutil.py:80 | every field of `str.split()` is non-empty and free of whitespace (that fields are the maximal runs: `Text.SplitAtSpace`, `Text.SplitWord`) |
| Text.SplitKeepsText | psshlib/psshutil.py:80 | the fields, concatenated, are exactly the non-whitespace characters of the string, in order |
| Text.SplitEmptyIffBlank | psshlib/psshutil.py:57 | a string has no fields if and only if it is all whitespace |
| Text.SplitJoin | psshlib/psshutil.py:80 | splitting words joined by single spaces gives the words back |
| Text.SplitAtSpace | psshlib/psshutil.py:80 | a whitespace character separates: the fields of `a + c + b` are the fields of `a` followed by those of `b` |
| Text.SplitWord | psshlib/psshutil.py:80 | a non-empty run without whitespace is exactly one field, so with `Text.SplitAtSpace` every field is a maximal run of non-whitespace |
| Text.Strip | psshlib/psshutil.py:39 | `strip()` is empty exactly for a blank line, and otherwise starts and ends with a non-space (that only the whitespace around it is removed: `Text.StripDropsSpace`) |
| Text.TrimStartDropsSpace | psshlib/psshutil.py:39 | what the leading trim of `strip()` removes is all whitespace |
| Text.TrimEndDropsSpace | psshlib/psshutil.py:39 | what the trailing trim of `strip()` removes is all whitespace |
| Text.StripDropsSpace | psshlib/psshutil.py:39 | the line is some whitespace, then `strip()` of it, then some whitespace: only whitespace on either side is removed |
| Text.StrippedHasField | psshlib/psshutil.py:39-42 | a line that is not blank after stripping has a first field, so `fields[0]` exists |
| Text.FirstIndex | psshlib/psshutil.py:122 | the index of the first occurrence of a character: it is there, and it is not in anything before |
| Text.LastIndex | psshlib/psshutil.py:124 | the index of the last occurrence of a character: it is there, and it is not in anything after |
| Text.SplitPair | psshlib/psshutil.py:86 | `left, right = s.split(':')` succeeds exactly when `s` holds one `:`, and then `left + ":" + right == s` |
| Decimal.ToDecimal | psshlib/psshutil.py:103 | `str(n)` is a non-empty string of ASCII digits |
| Decimal.ToDecimalValue | psshlib/psshutil.py:103 | `int(str(n)) == n`, and `str(n)` starts with `0` only for 0 |
| Decimal.ValueIgnoresLeadingZeros | psshlib/psshutil.py:88-89 | leading zeros do not change what `int()` reads |
| Decimal.ZeroFill | psshlib/psshutil.py:104 | `zfill` pads with `0` to the width, keeps the numeral as its tail, and leaves a numeral that is long enough unchanged |
| Decimal.ZeroFillValue | psshlib/psshutil.py:104 | a zero-filled numeral has the same value |
| Decimal.ToDecimalLengthMonotone | psshlib/psshutil.py:101 | a larger number never has a shorter `str`, so the guard `len(str(left_int)) <= len(str(right_int))` holds at every turn of the loop |
| Decimal.ToDecimalNoLonger | psshlib/psshutil.py:101 | `str(int(s))` is never longer than the digit string `s` |
| HostParse.SplitUser | psshlib/psshutil.py:121-122 | `split('@', 1)`: no user exactly when there is no `@`; otherwise a user free of `@`, and `user + "@" + rest` is the token |
| HostParse.SplitPort | psshlib/psshutil.py:123-124 | `rsplit(':', 1)`: no port exactly when there is no `:`; otherwise a port free of `:`, and `host + ":" + port` is the text |
| HostParse.ParseHostParts | psshlib/psshutil.py:114-125 | `parse_host` never fails; it falls back to the default user when there is no `@`, and otherwise takes the `@`-free text before the first `@`; it falls back to the default port when no `:` follows the user, and otherwise takes the `:`-free text after the last `:`; the parts it finds, put back, give the token |
| HostParse.UnparseRoundTrip | psshlib/psshutil.py:114-125 | parsing a token written from a host, a port free of `:` and a user free of `@` gives them back, with defaults for the parts left out |
| HostParse.ParseHostEntry | psshlib/psshutil.py:49-72 | fails with too many fields if and only if there are more than two fields; fails with user given twice if and only if there are two fields and the first has `@`; otherwise gives `parse_host` of the first field, with the second field or the default as the user |
| HostParse.EntryKeepsBrackets | psshlib/psshutil.py:62-63 | a host-file line `p[l:r]s` is not expanded: its host is `p[l` and its port `r]s` |
| HostParse.NoMatchNoCandidate | psshlib/psshutil.py:83-84 | no match only when no `[`, then at least one character, then `]` appear in the token |
| HostParse.MatchIsCandidate | psshlib/psshutil.py:83-85 | a match has `[` and `]` with at least one character between, and `prefix[range]suffix` is the token |
| HostParse.MatchIsGreatest | psshlib/psshutil.py:11 | the greedy groups choose the last possible `[`, then the last `]` after it |
| HostParse.MatchOf | psshlib/psshutil.py:83-85 | a token `prefix[range]suffix`, whose range holds no `[` before its last character and whose suffix has no `]`, matches with exactly those groups |
| HostParse.BracketedParts | psshlib/psshutil.py:85-86 | `prefix[left:right]suffix` matches with range `left:right`, which unpacks into `left` and `right` |
| HostParse.ExpandBracketed | psshlib/psshutil.py:83-92 | such a token expands exactly as its two sides say |
| HostParse.ExpandSidesErrors | psshlib/psshutil.py:87-98 | an empty side gives nothing; a side that is not a number gives the `int()` error; start >= stop gives the invalid-range error; padding with sides of different lengths gives the ambiguous-padding error |
| HostParse.ExpandSidesHosts | psshlib/psshutil.py:99-106 | a valid range `[a:b]` gives the `b - a + 1` hosts of the indices `a` to `b`, in order |
| HostParse.RangeIndices | psshlib/psshutil.py:90-104 | every index text denotes its index; with padding on, each is exactly the padding width; with padding off, each is plain decimal with no leading zero |
| HostParse.RangeHostsAt | psshlib/psshutil.py:99-106 | the hosts of a range are as many as its indices, and host i is `parse_host` of the prefix, the text of index a + i and the suffix |
| HostParse.ExpandRangeToken | psshlib/psshutil.py:83-106 | a token `prefix[left:right]suffix` with a valid range expands to `parse_host` of its `b - a + 1` range tokens, and every index text in `[a, b]` denotes its index, is the padding width when padding is on, and has no leading zero otherwise |
| HostParse.RangeIndicesAll | psshlib/psshutil.py:90-104 | `HostParse.RangeIndices` for every index of the range at once |
| HostString.IndexDigits | psshlib/psshutil.py:100-104 | the index text is `str(left_int)`, zero-filled to the width |
| HostString.AppendIndex | psshlib/psshutil.py:100-106 | one loop turn appends the host of the next index to the range hosts so far |
| HostString.AppendRange | psshlib/psshutil.py:99-106 | the `while` loop appends the hosts of every index from start to stop, in order |
| HostString.ExpandEntry | psshlib/psshutil.py:83-98 | one token of the first loop appends its expansion, or returns its range error |
| HostString.ExpandRange | psshlib/psshutil.py:87-106 | the checks on the two sides and then the index loop: the expansion of the sides appended, or their error |
| HostString.ParseHostString | psshlib/psshutil.py:74-112 | the result is `HostStringSpec`: the first pass's expansions followed by the plain tokens' hosts, or the first range error |
| HostString.AppendPlain | psshlib/psshutil.py:108-111 | the second loop appends `parse_host` of every token the pattern does not match, in order |
| HostString.ExpandAllStops | psshlib/psshutil.py:93-95 | once the first pass fails, later tokens do not change the result |
| HostString.ExpandAllFailsIff | psshlib/psshutil.py:93-98 | the first pass fails if and only if some token's expansion fails |
| HostString.FirstErrorWins | psshlib/psshutil.py:94-95 | the error reported is that of the first failing token |
| HostString.HostStringErrors | psshlib/psshutil.py:93-98 | the whole call fails if and only if some token has a range error, and then fails with the first token's error |
| HostString.PlainTokensExpandToNothing | psshlib/psshutil.py:82-84 | tokens without a range pattern add nothing in the first pass |
| HostString.PlainTokensParsed | psshlib/psshutil.py:108-111 | without range tokens, the second pass parses every token in order |
| HostString.PlainHostString | psshlib/psshutil.py:74-112 | a host string without range tokens gives `parse_host` of each whitespace field, in order |
| HostFile.ReadHostLines | psshlib/psshutil.py:36-45 | the loop gives `HostLines`: per line, nothing for a blank or comment line, else the entry if it parsed and has a host |
| HostFile.HostLinesFromEntries | psshlib/psshutil.py:40-44 | every host read has a non-empty name and comes from one line whose entry parsed without error |
| Examples.EmptyPortIsKept | psshlib/psshutil.py:123-124 | `host:` gives an empty port, not the default port |
| Examples.FullToken | psshlib/psshutil.py:119-125 | `root@db:5432` gives host `db`, port `5432`, user `root` |
| Examples.EqualEnds | psshlib/psshutil.py:93-95 | `[5:5]` is an invalid range |
| Examples.Descending | psshlib/psshutil.py:93-95 | `[9:2]` is an invalid range |
| Examples.PaddedLengthsDiffer | psshlib/psshutil.py:96-98 | `[01:003]` is rejected as ambiguous padding |
| Examples.LoneZeroPads | psshlib/psshutil.py:91-98 | `[0:10]` turns padding on and is rejected as ambiguous padding |
| Examples.EmptySideDropped | psshlib/psshutil.py:87 | `[:3]` contributes no host and no error |
| Examples.PaddedIndices | psshlib/psshutil.py:101-104 | with width 2, index 1 is written `01` and index 10 is written `10` |
| Examples.ControlByteIsNotSpace | psshlib/psshutil.py:80 | `a\x1cb` is one field of `split()`: a byte outside the six ASCII whitespace characters does not separate fields |
| Examples.PlainRange | psshlib/psshutil.py:83-106 | `web[1:3]` expands to `web1`, `web2`, `web3`, each with the default port and user |
| Examples.PaddedRange | psshlib/psshutil.py:83-106 | `web[01:03]` expands to `web01`, `web02`, `web03`, each with the default port and user |

## Left out

- `read_host_files` and the file reading in `read_host_file` (psshutil.py:13-34) are file I/O. The model starts from the lines already read and stripped. `read_host_files` does not pass `default_port` on to `read_host_file`; that is not modelled either.
- `set_cloexec` (psshutil.py:127-133) is a system call on a file descriptor.
- The messages written to stderr are not modelled. Only the failure kind is kept.
- `int()` is modelled on strings of ASCII digits only. Python 2's `int()` on a byte string also accepts a sign and surrounding whitespace. A range such as `[-1:3]` or `[+1:3]` is therefore a `NotAnInteger` failure here, while Python would read a number.
- HostParse.MatchRange: models `re.search(HOST_PATTERN, …)` only on tokens. Tokens never hold a line break, so `.` matches every character.
- HostParse.ParseHostEntry: requires a line with at least one field. On an empty line the source raises `IndexError` at `fields[0]`. Its only caller skips blank lines, so the failure never occurs (`Text.StrippedHasField`).
- HostParse.ParseHost: has no `ensures` of its own. Its contract is stated by `HostParse.ParseHostParts` and `HostParse.UnparseRoundTrip`.
