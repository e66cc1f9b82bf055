# thumbnail-kit output naming, in Dafny

thumbnail-kit is a one-file Swift command-line script. It reads one image and writes three resized copies, one per size tier: Large at scale 1, Middle at 0.66 and Small at 0.33. Each copy goes under a name built from the input name by a fixed policy. This project models that naming policy and proves properties about it:

- the `Size` table: each tier's scale factor and file-name suffix (`@3x`, `@2x`, empty), and the tier order `Size.all`;
- Foundation's `componentsSeparatedByString(".")`, which takes names apart;
- `String.fileExtension`, the last component of the name split on dots;
- `String.fileNameWithoutExtension`, the first component;
- the loop in `Converter.createThumbnails` that derives `base + suffix + "." + ext` for every tier and passes it to `resize` with the tier's scale.

Modules, one per concept of the script:

- `Components` (`components.dfy`): the separator `Dot`, `Split`, the model of `componentsSeparatedByString` with a one-character separator, and its inverse `Join`.
- `FileNames` (`filenames.dfy`): `FileExtension` and `FileNameWithoutExtension`, each with a contract that pins the result down completely, plus lemmas about names with no dot and with one dot.
- `Sizes` (`sizes.dfy`): the `Size` datatype, `Scale`, `Suffix` and `All`.
- `Converter` (`converter.dfy`): `DestinationFileName` and `CreateThumbnails`. `CreateThumbnails` returns the sequence of `(file name, rate)` pairs that the script hands to `resize`, in order.

Scale factors are exact rationals (`real`), not Doubles. Strings are `seq<char>`.

Two behaviours of the code worth knowing:

- **Multi-dot names.** The base name is everything before the FIRST dot and the extension is everything after the LAST dot. So `a.v2.png` gives base `a` and extension `png`, and the `v2` is dropped. `RoundTripIffOneDot` proves that base and extension rebuild the name exactly when it has exactly one dot.
- **The input path is used whole.** `createThumbnails` receives the command-line argument itself, not its last path component. So a directory part stays in the base name. A dot in a directory name moves the split point: `./photo.png` gives base `""` and destination `@3x.png`.

## Model

| member | source | states |
|---|---|---|
| Components.Split | thumbnail-kit/main.swift:104-111 | `componentsSeparatedByString` on one separator never returns an empty array. It returns one more component than the input has separators. No component holds the separator. Joining the components with the separator gives back the input. |
| Components.SplitJoin | thumbnail-kit/main.swift:104-111 | Splitting undoes joining for separator-free components, so the components of a name are determined by the name. |
| FileNames.FileExtension | thumbnail-kit/main.swift:105-107 | The extension is a dot-free suffix of the name. If it is shorter than the name, a dot comes right before it. It is the whole name exactly when the name has no dot. |
| FileNames.ExtensionIsAfterLastDot | thumbnail-kit/main.swift:105-107 | Any dot-free suffix that is the whole name or is preceded by a dot IS the extension, so the extension is exactly the text after the last dot. |
| FileNames.FileNameWithoutExtension | thumbnail-kit/main.swift:108-110 | The base name is a dot-free prefix of the name. If it is shorter than the name, a dot follows it. It is the whole name exactly when the name has no dot. It is empty when the name starts with a dot. |
| FileNames.BaseIsBeforeFirstDot | thumbnail-kit/main.swift:108-110 | Any dot-free prefix that is the whole name or is followed by a dot IS the base name, so the base name is exactly the text before the first dot. |
| FileNames.NoDotIsBaseAndExtension | thumbnail-kit/main.swift:104-111 | A name without a dot is both its own base name and its own extension. |
| FileNames.OneDotSplitsInTwo | thumbnail-kit/main.swift:104-111 | A name with exactly one dot splits into exactly two components, the base name and the extension, and it is those two around the dot. |
| FileNames.RoundTripIffOneDot | thumbnail-kit/main.swift:104-111 | `base + "." + ext` equals the original name if and only if the name has exactly one dot. |
| Sizes.Size.Scale | thumbnail-kit/main.swift:41-50 | Every tier's rate lies in (0, 1]. Only Large has rate 1. |
| Sizes.Size.Suffix | thumbnail-kit/main.swift:51-60 | No suffix contains a dot. Only Small has the empty suffix. |
| Sizes.Size.Index | thumbnail-kit/main.swift:61 | Every tier has a position in `Size.all`. |
| Sizes.AllEnumeratesSizes | thumbnail-kit/main.swift:37-61 | `Size.all` has three entries and lists every tier exactly once. |
| Sizes.ScaleDecreasesAlongAll | thumbnail-kit/main.swift:41-61 | Rates strictly decrease along `Size.all`: 1 > 0.66 > 0.33. |
| Sizes.SuffixInjective | thumbnail-kit/main.swift:51-60 | Distinct tiers have distinct suffixes. |
| Converter.DestinationFileName | thumbnail-kit/main.swift:68 | The destination name built for a tier holds exactly one dot, because the base name, the extension and every suffix are dot-free. |
| Converter.DestinationNameParsesBack | thumbnail-kit/main.swift:68 | Every destination name contains exactly one dot. It splits into the source's base name plus the tier suffix, and the source's extension. Taking its base name and extension gives back those two parts. |
| Converter.CreateThumbnails | thumbnail-kit/main.swift:66-71 | Assuming every resize and write returns, `createThumbnails` makes exactly three resize calls, one per tier in the order Large, Middle, Small. Each call gets that tier's rate and destination name. The names are pairwise distinct and the rates strictly decrease. |
| Converter.DestinationNamesDistinct | thumbnail-kit/main.swift:66-70 | For any source name, two different tiers never get the same destination name. |
| Converter.ThumbnailNamesPairwiseDistinct | thumbnail-kit/main.swift:66-70 | A request list built as `createThumbnails` builds it never repeats a destination name. |
| Converter.ThumbnailRatesDecreasing | thumbnail-kit/main.swift:61-69 | A request list built as `createThumbnails` builds it uses strictly smaller rates at every step. |
| Converter.NoDotDestination | thumbnail-kit/main.swift:68 | A name without a dot is used on both sides of the dot: `photo` becomes `photo@3x.photo`. |
| Converter.OneDotDestination | thumbnail-kit/main.swift:68 | For a name with exactly one dot, the destination is the original name with the tier suffix inserted just before that dot. |

## Left out

- `Storage` (thumbnail-kit/main.swift:7-35) is filesystem I/O and Foundation URL resolution. This covers creating the temporary directory, resolving the destination name against it with `NSURL(string:relativeToURL:)`, and writing the file. Distinct destination names therefore need not reach distinct files. `NSURL(string:)` reads `#` as the start of a fragment, so `a#b.png` sends all three tiers to the same path. An absolute one-dot input path makes the Small tier's name equal to the input (see `Converter.OneDotDestination`), so the source file itself is overwritten.
- `Converter.resize` (thumbnail-kit/main.swift:72-82) is Double arithmetic plus Cocoa rendering and TIFF encoding, which are foreign calls. The model records only the name and rate each call receives. Width and height are multiplied by the rate without rounding (line 74). The data written is always TIFF, whatever the extension (line 80).
- `Command.execute` (thumbnail-kit/main.swift:86-101) is tilde expansion, file reading and image decoding, all I/O or framework calls.
- The top-level argument check and the `exit` calls (thumbnail-kit/main.swift:113-120, 29-30, 91-97) are printing and process termination.
- Converter.CreateThumbnails: assumes every resize and write returns. In the program the loop can stop early. `writeToFile` exits the process when a write fails (thumbnail-kit/main.swift:28-30). The `!` at thumbnail-kit/main.swift:27 traps when `NSURL(string:relativeToURL:)` returns nil, for example for a name that contains a space. In either case fewer than three files are written.
- Sizes.Size.Scale: rates are exact rationals, whereas the program uses the nearest IEEE Doubles to 0.66 and 0.33.
- Components.Split: splits on every literal `.` character. Foundation's `componentsSeparatedByString` compares composed character sequences, so a `.` followed by a combining mark (U+0301, say) may not count as a separator there; such names are not modelled. Strings here are sequences of characters, not UTF-16 code units.
