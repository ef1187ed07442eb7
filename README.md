# router-hello core, modelled in Dafny

router-hello (the `rv128` repository) is a small HTTP server that shows a
router's identity — AS number, AS name, router domain and ID, IPv4 and IPv6
addresses — together with the address of the visitor, plus an `install`
subcommand that asks the operator for those values and writes them to an
environment file for the systemd service.

This project models the pure decisions of `src/main.rs` and proves what
they promise:

- `net.dfy` (module `Net`): IP addresses as network-order octets, the
  dotted-decimal text of an IPv4 address (`Ipv4Addr::to_string`), and the
  IPv4-mapped range `::ffff:0:0/96` of section 2.5.5.2 of RFC 4291
  (`Ipv6Addr::to_ipv4_mapped`, `Ipv4Addr::to_ipv6_mapped`). The dotted text
  is proved injective.
- `remote_addr.dfy` (module `RemoteAddress`): `From<IpAddr> for RemoteAddr`
  (IPv4 peers and IPv4-mapped IPv6 peers become `V4`, every other IPv6 peer
  `V6`) and its `Display` (`IPv4(...)` / `IPv6(...)`), proved reversible.
- `config.dfy` (module `Config`): `env::var` over a modelled environment,
  `IndexTemplate::new` (each setting is its variable when set to valid
  Unicode, else its fixed default), the listen-address fallback of `http`,
  and the template one request builds for its peer.
- `prompt.dfy` (module `Prompt`): `readline` once the editor has answered:
  `str::trim` with Rust's `char::is_whitespace` (the Unicode `White_Space`
  set), the default for a blank answer, and the three abort messages.
- `install.dfy` (module `Install`): the seven prompts of `install` in order,
  and the environment file built from the answers. A simplified reader for
  that file's `KEY=value` lines is the partner: as it reads the file, the six
  template answers reach the template fields, and the listen answer becomes
  the listen address when it parses.

Everything is pure, as the modelled code is: datatypes, functions and
lemmas. `panic!` in `readline` becomes an `Abort(message)` reply, and the
sequence of prompts stops at the first one.

Two behaviours of the source are stated as lemmas rather than assumed
away. The install prompt proposes `[::]:80` as the listen address, while the
server's own fallback is `[::]:8080`
(`Install.BlankAnswersGiveDefaults`). And an unset `LISTEN_ADDR` is read as
the empty string and handed to the parser; only when that fails does the
server fall back to the default (`Config.UnsetListenAddrFallsBack`).

## Model

| member | source | states |
|---|---|---|
| Net.Decimal | src/main.rs:74 | The decimal text of an octet as `Display` writes it: at least one digit, digits only, no leading zero except for `0` itself |
| Net.DecimalValue | src/main.rs:74 | The decimal text reads back as the number it was written from |
| Net.DecimalInjective | src/main.rs:74 | Distinct numbers have distinct decimal texts |
| Net.Ipv4Text | src/main.rs:74-78 | `Ipv4Addr::to_string`: four decimal octets joined by dots, 7 to 15 characters, digits and dots only; its partner `Net.Ipv4TextInjective` shows the text determines the address |
| Net.Ipv4TextInjective | src/main.rs:74 | Distinct IPv4 addresses have distinct dotted-decimal texts, so the `V4` payload identifies the address |
| Net.LoopbackText | src/main.rs:74 | The loopback address prints as `127.0.0.1` |
| Net.MapToIpv6 | src/main.rs:77 | `::ffff:a.b.c.d` carries the IPv4 address in its last four octets |
| Net.ToIpv4Mapped | src/main.rs:77 | Unwrapping gives an IPv4 address exactly for addresses in `::ffff:0:0/96`, and it is the one the address was mapped from |
| Net.MappedRoundTrip | src/main.rs:77 | Unwrapping a mapped address gives back the IPv4 address it was made from |
| Net.Ipv4Of | src/main.rs:72-83 | The IPv4 address a peer stands for: itself for an IPv4 peer; for an IPv6 peer one exists exactly when it is IPv4-mapped, and it is the address in the low 32 bits |
| RemoteAddress.Classify | src/main.rs:70-85 | A peer is `V4` exactly when it stands for an IPv4 address, carrying that address's dotted text; otherwise it is an IPv6 peer shown with its IPv6 text |
| RemoteAddress.ClassifyIpv4 | src/main.rs:73-75 | An IPv4 peer is `V4` with its dotted-decimal text |
| RemoteAddress.LoopbackPeerDisplay | src/main.rs:61-74 | A peer at 127.0.0.1 is `V4("127.0.0.1")`, displayed as `IPv4(127.0.0.1)` |
| RemoteAddress.MappedClassifiesAsIpv4 | src/main.rs:76-79 | `::ffff:a.b.c.d` classifies exactly as `a.b.c.d` |
| RemoteAddress.UnmappedIsIpv6 | src/main.rs:79-81 | An IPv6 peer outside `::ffff:0:0/96` is `V6` with its own IPv6 text |
| RemoteAddress.LoopbackAndCompatibleAreIpv6 | src/main.rs:76-82 | `::1` and the IPv4-compatible `::192.0.2.5` stay `V6`; only the mapped range is unwrapped |
| RemoteAddress.SameIpv4Classification | src/main.rs:70-85 | Two peers classified as `V4` get equal classifications exactly when they stand for the same IPv4 address |
| RemoteAddress.Display | src/main.rs:57-68 | The display text `IPv4(x)` or `IPv6(x)` parses back to the classification it shows |
| RemoteAddress.DisplayInjective | src/main.rs:57-68 | Distinct classifications display differently |
| Config.Var | src/main.rs:103-108 | `env::var` gives the value exactly when the key is set to valid Unicode, and reports "not present" exactly when the key is absent |
| Config.VarOr | src/main.rs:103-108 | `env::var(key).unwrap_or(default)` is the variable's value when it is set to valid Unicode and the default otherwise |
| Config.NewIndexTemplate | src/main.rs:101-121 | Each of the six settings is its environment value when that is set to valid Unicode and its documented default otherwise; package name, version and peer are carried through |
| Config.SettingOf | src/main.rs:103-108 | The field read from each of the six keys is its environment value when set and that key's default otherwise |
| Config.SettingsIndependent | src/main.rs:103-108 | Setting one variable changes only its own field, which then holds the value |
| Config.ListenAddr | src/main.rs:124-125 | The listen address is `LISTEN_ADDR` when set and parseable, the parse of the empty string when unset and that parses, and the parsed `[::]:8080` whenever the chosen text does not parse |
| Config.UnsetListenAddrFallsBack | src/main.rs:124-125 | With `LISTEN_ADDR` unset and an empty text rejected, the server listens on the default |
| Config.TemplateForPeer | src/main.rs:132-133 | One request's template shows the peer as `V4` with its dotted text exactly when the peer stands for an IPv4 address, otherwise as `V6` with its IPv6 text; carries the build constants; each of the six settings is its environment value when set and its default otherwise |
| Config.MappedPeerSameTemplate | src/main.rs:132-133 | In any environment a request from `::ffff:a.b.c.d` builds the same template as one from `a.b.c.d` |
| Config.DefaultsForLoopbackPeer | src/main.rs:24-31 | With an empty environment and a peer at 127.0.0.1 the page shows router ID `rv128`, IPv4 address `43.228.174.128` and `IPv4(127.0.0.1)`; a peer at `::ffff:127.0.0.1` gets the identical template |
| Prompt.AsciiWhitespace | src/main.rs:160 | Among ASCII characters, `char::is_whitespace` (the Unicode `White_Space` set, `Prompt.IsWhitespace`) holds exactly for tab, line feed, vertical tab, form feed, carriage return and space |
| Prompt.SkipForward | src/main.rs:160 | The first non-whitespace index from a position, with only whitespace skipped |
| Prompt.SkipBackward | src/main.rs:160 | The end of a range once trailing whitespace is dropped, with only whitespace dropped |
| Prompt.Trim | src/main.rs:160 | The trimmed line is a contiguous part of the line with only whitespace around it, and is empty or starts and ends with non-whitespace |
| Prompt.TrimOfUnique | src/main.rs:160 | That characterisation has only one solution, so it determines the trimmed line |
| Prompt.TrimEmptyIffBlank | src/main.rs:160-161 | The trimmed line is empty exactly when the line is all whitespace |
| Prompt.TrimKeepsTrimmed | src/main.rs:160 | Trimming an already trimmed text changes nothing |
| Prompt.TrimIdempotent | src/main.rs:160 | Trimming twice is trimming once |
| Prompt.Normalize | src/main.rs:159-166 | A blank line gives the default; any other line gives its trimmed text, which is non-empty and has no whitespace at either end |
| Prompt.NormalizeKeepsTrimmedAnswer | src/main.rs:159-166 | An answer that is already trimmed and non-empty comes back unchanged, whatever the default |
| Prompt.NormalizeIdempotent | src/main.rs:159-166 | Normalising the answer to a non-blank line again gives it back, whatever the default |
| Prompt.Readline | src/main.rs:154-177 | A line is answered, normalised against the default; an interrupt aborts with `Aborting.`, end of input with `EOF reached. Aborting.`, any other editor error with `Error: ` and its debug text |
| Prompt.AnsweredLine | src/main.rs:158-166 | `readline` answers only when the editor returned a line, and the answer is that line normalised against the default |
| Install.FirstUnanswered | src/main.rs:181-187 | The first prompt from a position that gets no line: every earlier one gets a line, and it does not |
| Install.AskFrom | src/main.rs:181-187 | Prompting from a position succeeds exactly when no later prompt goes unanswered, and yields one answer per prompt |
| Install.AskFromAnswers | src/main.rs:181-187 | Each collected answer is what `readline` made of the line given at its prompt |
| Install.AskFromAborts | src/main.rs:181-187 | A failed run carries the abort message of the first prompt that got no line |
| Install.AllAnsweredIff | src/main.rs:181-187 | The seven prompts succeed exactly when every one of them gets a line |
| Install.AnswerIsNormalized | src/main.rs:181-187 | When all prompts are answered, answer k is the line given at prompt k normalised against default k |
| Install.AnswersAreNormalized | src/main.rs:181-187 | Each of the seven answers is its line normalised against that prompt's default |
| Install.Configure | src/main.rs:181-187 | The prompting step succeeds exactly when all seven prompts get a line; each answer is its line normalised against its default; a failure carries the first unanswered prompt's abort message |
| Install.BlankAnswersGiveDefaults | src/main.rs:181-187 | Seven blank lines accept the seven proposed defaults, and the proposed listen address `[::]:80` differs from the server's `[::]:8080` |
| Install.Terminated | src/main.rs:191-199 | Each line followed by a newline: the text is empty only for no lines and otherwise ends in a newline |
| Install.Assignments | src/main.rs:192-198 | Seven lines, line k assigning the answer to prompt k to key k of `LISTEN_ADDR`, `ASN`, `AS_NAME`, `ROUTER_DOMAIN`, `ROUTER_ID`, `ADDRESS_V4`, `ADDRESS_V6` |
| Install.EnvFileText | src/main.rs:191-199 | The file begins and ends with a newline; its partners `Install.EnvFileLines` and `Install.EnvFileRoundTrip` give its exact lines and show it reads back to the answers |
| Install.NoNewlineInAssignment | src/main.rs:192-198 | A `KEY=value` line holds no newline when neither key nor value does |
| Install.SplitAfterPiece | src/main.rs:191-199 | Cutting `a` + newline + `b` at newlines gives `a` followed by the pieces of `b` |
| Install.SplitTerminated | src/main.rs:191-199 | Newline-terminated lines without inner newlines cut back into those lines and an empty tail |
| Install.SplitFirst | src/main.rs:191-199 | Cutting a line at its first `=`: none exactly when there is no `=`, otherwise a key without `=` and the rest, which rebuild the line |
| Install.SplitFirstOfAssignment | src/main.rs:191-199 | `KEY=value` with no `=` in the key splits back into the key and the whole value, even when the value holds `=` |
| Install.EnvFileLines | src/main.rs:191-199 | The file is an empty first line, the seven `KEY=value` lines in order, and the empty piece after the final newline |
| Install.ReadAssignment | src/main.rs:191-199 | Reading one `KEY=value` line sets that key to that value |
| Install.EnvKeysWellFormed | src/main.rs:192-198 | The seven keys are distinct and contain neither `=` nor a newline |
| Install.ReadEnvLinesAppend | src/main.rs:191-199 | Reading two blocks of lines is reading the first, then the second |
| Install.ReadAssignments | src/main.rs:191-199 | Reading lines that assign distinct keys sets exactly those keys to their values and leaves every other variable as it was |
| Install.EnvFileRoundTrip | src/main.rs:191-199 | The simplified reader reads the written file back as exactly the seven keys, each set to its answer verbatim |
| Install.InstalledAnswersReachServer | src/main.rs:101-125 | With the file read by the simplified reader, the six template answers become the template fields, and the listen answer becomes the listen address whenever it parses |

## Left out

- The HTTP server (`http`, src/main.rs:123-152): binding, serving connections, response status and headers are I/O; only the listen address and the per-request template are modelled.
- Template rendering (`template.render()`, src/main.rs:137, and `templates/index.html`): askama output is not modelled; the model stops at the template's fields.
- `Ipv6Addr::to_string` (the RFC 5952 text form) is not reimplemented: `RemoteAddress.Classify` takes it as the parameter `v6Text`.
- `SocketAddr::from_str` is not reimplemented: `Config.ListenAddr` takes it as the parameter `parse`, and requires that it accepts `[::]:8080`, as the source's `unwrap` does.
- `Config.ListenAddr`: does not model the panic when the default fails to parse, because the standard parser accepts `[::]:8080`.
- `PKG_NAME` and `PKG_VERSION` come from `Cargo.toml`, which is not part of this model; they are the parameter `build`.
- The line editor (`DefaultEditor`, src/main.rs:155-157): the prompt text `message [default]: ` and the questions themselves are display only; the editor's outcome is the input `Prompt.LineResult`.
- `Install.ReadEnvFile`: a simplified reader of systemd environment files (one `KEY=value` per line, split at the first `=`); quoting, comments, continuation lines and whitespace around `=` are not modelled, so answers are assumed free of newlines (`Install.NoNewlines`). systemd's own reader also removes backslash escapes from unquoted values and strips the quotes from a value that starts with one, so an answer holding a backslash or starting with a quote does not reach the server unchanged; the round trip is proved for the simplified reader only.
- The rest of `install` (src/main.rs:200-261): writing the file, copying the binary, the unit file, its symlink and the `systemctl` calls are file-system and process I/O.
- Command-line parsing with clap (src/main.rs:35-49, 264-277) only selects `http` or `install`.
