# Macshift in Dafny

A model of the logic in Macshift's `macshift.cpp`. Macshift is a Windows command-line tool that changes a network adapter's MAC address. It does this by writing a `NetworkAddress` override into the adapter's registry configuration and then cycling the adapter.

The model covers four pieces of it:

- **The MAC address validator** `isValidMac` (`MacAddress.IsValidMac`). It accepts exactly 12 characters, each one `0-9`, `a-f` or `A-F`.
- **The generator** `randomMac` (`MacAddress.RandomMac`). The random draws are parameters. They are the vendor-prefix table `validMacs`, the raw `rand()` value that picks an entry, and the three raw `rand()` values that give the low bytes. The method shifts the prefix and the three bytes into one number. It then renders the low 48 bits as 12 upper-case hexadecimal digits, from the least significant end. `HexRender` is that rendering as a function, and `HexValue` reads digits back as a big-endian number.
- **The argument loop of `main`** (`CommandLine.ParseArgs`). This is a left-to-right loop over the arguments after the program name. Its state is the adapter name, whether a MAC mode was chosen, and the new address. The address starts as the random one, and the empty address means "restore". `CommandLine.Parse` is the same loop written as a function. `Reaches(args, rnd, j, st)` says that the loop gets to index `j` in state `st`, and the lemmas say what each argument does from there. The display of the chosen address is `CommandLine.ShowNewMac`.
- **The two first-match registry scans** `findAdapterId` and `setMac`. The registry is abstract: a list key either cannot be opened or enumerates to a sequence of steps. Each step is either a subkey or a failed `RegEnumKeyEx`. For each subkey the model records whether its key opens and what the one queried string value holds. `setMac` changes the matched subkey of the adapter class key in place, so it is a method of the class `Registry.ClassList`.

`Macshift.RunMacshift` ties the four together in `main`'s order: generate, parse, display, look up, write. It ends where `main` calls `resetAdapter`.

Behaviour of this revision of the program that the model states:

- Restore mode (`-d`) does not delete the `NetworkAddress` value. `setMac` writes the empty string with its terminating NUL, one character of data.
- `-h`, and an empty adapter name, show help and exit with failure status.
- The first six generated digits are the low 24 bits of the chosen table entry. Read back, they equal the entry exactly when the entry is below 2^24. `RandomMac` returns `GeneratedMac`, and `GeneratedMacFacts` states both facts about it.

## Model

| member | source | states |
|---|---|---|
| `MacAddress.IsValidMac` | macshift.cpp:157-169 | The result is true exactly when the string has 12 characters and each is in `0-9`, `a-f` or `A-F`, so mixed case is accepted. |
| `MacAddress.HexRender` | macshift.cpp:183-187 | Rendering `n` digits gives exactly `n` characters, one per pass of the second loop. |
| `MacAddress.RenderedDigits` | macshift.cpp:182-187 | Every character of a rendering is in `0-9` or `A-F`. |
| `MacAddress.DigitChar` | macshift.cpp:182 | Entry `d` of the digit table `"0123456789ABCDEF"` is an upper-case digit whose value is `d`. |
| `MacAddress.RenderedIsValid` | macshift.cpp:182-188 | Every 12-digit rendering passes the validator. |
| `MacAddress.HexRoundTrip` | macshift.cpp:184-187 | Reading a rendering of `v` back as big-endian hex gives `v mod 16^n`. |
| `MacAddress.HexValueRender` | macshift.cpp:157-169 | The other direction of the round trip: rendering the value of any hex string gives the same string in upper case. |
| `MacAddress.ValidMacDecodes` | macshift.cpp:157-169 | Every valid address is the rendering of one value below 2^48, up to letter case, and no other value below 2^48 renders to it. |
| `MacAddress.RenderByteStep` | macshift.cpp:178-179 | Shifting a byte into a value adds that byte's two hex digits to the end of the rendering. |
| `MacAddress.PackThree` | macshift.cpp:176-180 | The first loop builds `prefix<<24`, `b0<<16`, `b1<<8` and `b2` or-ed together, where each byte is `rand() & 0xFF`. |
| `MacAddress.Layout` | macshift.cpp:176-187 | The 12 digits are the prefix's six low digits followed by the hex of the three random bytes, in draw order. |
| `MacAddress.RandomMac` | macshift.cpp:175-189 | The two loops return `GeneratedMac`: the 12-digit rendering of the chosen prefix with the three bytes shifted in. The result passes the validator. |
| `MacAddress.GeneratedMacFacts` | macshift.cpp:175-189 | The generated address has 12 characters from `0-9A-F` and passes the validator. Read back, it gives the packed value mod 2^48. Its first six digits render the table entry chosen by `pick % size`, and read back they give that entry exactly when it is below 2^24. Its last six digits are exactly the hex of the three bytes `rand() & 0xFF`. |
| `CommandLine.StepAt` | macshift.cpp:61-91 | One pass of the loop body moves on by two after a valid `-a` and by one otherwise, and it never moves past the end. |
| `CommandLine.ParseArgs` | macshift.cpp:50-101 | The loop with its early exits gives the outcome `Parse` defines: an error, help, or the adapter name and new address. |
| `CommandLine.ReachedDecides` | macshift.cpp:61-92 | Once the loop reaches an index in some state, the outcome depends only on that state and the rest of the arguments. |
| `CommandLine.ReachesNext` | macshift.cpp:61-92 | A step that does not stop leads from one reached index to the next. |
| `CommandLine.HelpFlagStops` | macshift.cpp:64-66 | Reaching `-h` ends parsing with help and failure status, whatever follows. |
| `CommandLine.SecondModeRejected` | macshift.cpp:67-69 | Reaching `-d`, `-r` or `-a` after a mode is already set gives the "more than one MAC address mode" error. |
| `CommandLine.MissingMacRejected` | macshift.cpp:75-77 | `-a` as the last argument gives the "Missing MAC address argument" error. |
| `CommandLine.InvalidMacRejected` | macshift.cpp:78-81 | `-a` followed by an argument that fails the validator gives the "Invalid MAC address" error. |
| `CommandLine.ExplicitMacTaken` | macshift.cpp:75-82 | `-a` followed by a valid address sets the new address to that argument exactly. It consumes the argument, leaves the adapter name unchanged and goes on two positions later. |
| `CommandLine.DeleteModeTaken` | macshift.cpp:70-72 | `-d` sets the mode and sets the new address to the restore value `""`. |
| `CommandLine.RandomModeTaken` | macshift.cpp:70-74 | `-r` sets the mode and leaves the address unchanged. |
| `CommandLine.UnknownFlagRejected` | macshift.cpp:63-86 | Reaching any other argument that starts with `-` gives the "Unrecognized command-line flag" error. |
| `CommandLine.SecondAdapterRejected` | macshift.cpp:87-89 | Reaching a positional argument while the adapter name is non-empty gives the "more than network adapter name" error. |
| `CommandLine.AdapterTaken` | macshift.cpp:87-90 | A positional argument reached while the name is empty becomes the name, including the empty argument. |
| `CommandLine.EndDecides` | macshift.cpp:98-101 | At the end of the arguments, an empty adapter name gives help; otherwise the outcome is the name and address reached. |
| `CommandLine.ParsedShape` | macshift.cpp:61-92 | In a successful parse there is no `-h` and no unrecognised flag, and at most one of `-d`, `-r`, `-a`. The adapter name is a non-empty argument that does not start with `-`. |
| `CommandLine.RandomByDefault` | macshift.cpp:57 | In a successful parse with no `-d` and no `-a` (`-r` or no mode flag), the address is the pre-generated random one. |
| `CommandLine.DeleteModeRestores` | macshift.cpp:71-72 | In a successful parse containing `-d`, the address is the restore value `""`. |
| `CommandLine.ExplicitMacUsed` | macshift.cpp:75-82 | In a successful parse with `-a` at index `k`, argument `k+1` exists, is valid, and is the address. |
| `CommandLine.ParsedMacForms` | macshift.cpp:57-82 | A parsed address is the random one, `""`, or a valid explicit address. |
| `CommandLine.ParseExamples` | macshift.cpp:61-101 | Concrete lists: `--help` is an unrecognised flag. `["", "Ethernet"]` parses to `Ethernet`. Letter case of `-a`'s argument is kept. The first error or `-h` decides. No arguments give help. |
| `CommandLine.ShowNewMac` | macshift.cpp:104-114 | The text satisfies `Displays`: the empty address shows as `(restore)`, and a 12-character address shows as 17 characters, its characters in order, in pairs, with `-` between the pairs. |
| `CommandLine.DisplayUnique` | macshift.cpp:105-113 | `Displays` fixes the text completely: two texts that both show the same address are equal. |
| `Registry.ScanEndsOneWay` | macshift.cpp:214-240 | A scan does exactly one of three things: it passes over every subkey, it meets a match first, or it meets an enumeration failure first. |
| `Registry.FindAdapterId` | macshift.cpp:208-241 | If the list key does not open, the result is that error. Otherwise it is one of: the name of the first subkey, in enumeration order, whose `Connection\Name` equals the adapter name, skipping subkeys that fail to open or have no value; the enumeration error, if it comes first; or not-found, exactly when no subkey matches. A first match always gives success with its name, and an enumeration error before any match always gives that error. |
| `Registry.RegSz` | macshift.cpp:270 | The stored data is the string followed by one NUL character, `size()+1` characters. |
| `Registry.ClassList.SetMac` | macshift.cpp:244-277 | The list key fails to open exactly when the result is that error. If it opens and the first subkey whose `NetCfgInstanceId` matches accepts the write, the method succeeds and sets `NetworkAddress` to the address plus its NUL on that subkey and on no other. If that subkey rejects the write, the result is the write error. Fails with not-found exactly when nothing matches, and with the enumeration error when one comes before any match. Every failure changes nothing. |
| `Macshift.RunMacshift` | macshift.cpp:47-121 | A parse error or help ends the run before any lookup and without any write. After a parse, the shown text is the `Displays` text of the chosen address. The run fails with the adapter-list error, not-found or enumeration error exactly as the first scan meets it. Once the first scan finds the adapter, the second scan's outcome decides the run: the class-list, not-found, enumeration or write error, or, when the first class subkey with that id accepts the write, `ResetNext` with exactly that subkey's `NetworkAddress` set to the chosen address. No other outcome writes anything. |

## Left out

- `resetAdapter` (macshift.cpp:280-332) is not part of this model. It loads `Netshell.dll`, initialises COM and uses an undocumented connection-manager interface, and none of that has behaviour visible to the model. `RunMacshift` ends with `ResetNext` where `main` would call it. The exit status after that depends on `resetAdapter` and is not modelled.
- The Win32 registry calls and the real key paths are not modelled. Each list key is an abstract sequence of enumeration steps. The 512-byte buffers, truncated or unterminated values, embedded NUL characters and value types are API details that the model does not see.
- `srand(GetTickCount64())` and `rand()` are replaced by parameters. Draws are any natural numbers, with no bound at `RAND_MAX`.
- `MacAddress.RandomMac`: requires a non-empty `validMacs` table, whose contents are not part of the source. With an empty table, `rand() % validMacs.size()` is undefined.
- Table entries are natural numbers. `long` is 32 bits on Windows, so a non-negative entry shifted left by 24 fits in `long long`. Negative entries and signed-shift behaviour are not modelled.
- The program name `argv[0]` is dropped: the loop gets the arguments after it. With `argc == 0`, `showHelp(argVec.at(0))` would throw, and the model does not cover that.
- Output to `std::cerr` is not modelled. That covers the banner, the help text of `showHelp`, "Network adapter ID", "Wrote registry key" and the error messages. Each error message is kept only as a constructor of `ParseError` or `ScanError`. The displayed address is returned as text, not printed.
- The `Finally` scope guard (macshift.cpp:193-205) is not modelled. It closes every opened handle on every exit path, and the model has no handles.
- The `logic_error("Unreachable")` branch (macshift.cpp:84) cannot be taken and has no counterpart.
- Concurrent changes to the registry by another process between the two scans are outside the model.
