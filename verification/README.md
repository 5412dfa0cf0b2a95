# autodecrypt: image classification and decryption dispatch, in Dafny

This project models the pure core of `autodecrypt/decrypt_img.py`. That
module decrypts iOS firmware images by handing them to one of two external
tools: `img4` for IMG4 payloads and `xpwntool` for IMG3 containers. The model
covers four parts of it:

- **Header classification** (`get_image_type`), in module `ImageHeader`.
  - A file is an already-read `seq<bv8>`.
  - Python's file object is modelled as a cursor. `read(n)` returns at most
    `n` bytes, fewer or none at the end of the file. `seek` may move past the
    end.
  - The result is `None`, an IMG3 header with its tag byte-reversed, or an
    IMG4 header with its tag as stored. The tag is shorter than four bytes
    when the file ends early.
- **Output-path derivation** (line 39 of `decrypt_img`), in module
  `PathRewrite`. It is three chained `str.replace` calls: "im4p", then "dfu",
  then "img3", each rewritten to "bin".
  - `ReplaceAll` models Python's `str.replace`, including the empty-pattern
    case, although line 39 never uses an empty pattern.
  - `ReplaceAll` is proved equal to its reference definition,
    `rep.join(s.split(pat))`, for every non-empty pattern.
- **Command construction** in `decrypt_img`, in module `Dispatch`.
  - The outcome is "file not found", "not an image", "not supported", or the
    exact argument vector that would be handed to `subprocess.Popen`.
  - Module `Tools` states how the two external tools read their command lines
    (`ParseArgv`). The argument vectors are proved against that reading, so
    that the IV, key, input and output land in the right places.
- **Key-bag parsing** in `get_kbag`, in module `Kbag`. This is the step
  `out.split()[0]` on the tool's output bytes. It fails with `IndexError`
  when the output contains no token.

Three points where the model follows the code:

- The branch in `decrypt_img` is chosen by the caller's `magic` argument
  (lines 41 and 47). The header detected from the file is only checked for
  `None` (lines 34-37), and the format it names is ignored
  (`Dispatch.DetectedFormatIgnored`, `Dispatch.MagicOverridesDetection`).
- Line 39 applies all three `replace` calls in turn, and each one rewrites
  every non-overlapping occurrence; no rule stops the others. A name ending
  in ".dfu.img3" has both extensions rewritten
  (`PathRewrite.AllRulesApply`).
- When a path contains none of the three substrings, the output path equals
  the input path, so the decrypted file would overwrite its source. This is
  an if-and-only-if (`PathRewrite.OutputPathUnchangedIff`).

Files:
- `wrappers.dfy`: `Option` and `Result`.
- `image_header.dfy`: `get_image_type`.
- `path_rewrite.dfy`: the replace chain.
- `tools.dfy`: the external tools' command lines.
- `dispatch.dfy`: `decrypt_img`.
- `kbag.dfy`: `get_kbag`.

## Model

| member | source | states |
|---|---|---|
| ImageHeader.Read | autodecrypt/decrypt_img.py:14-28 | `file.read(n)` yields `data[pos:pos+n]` clamped to the end of the file: exactly the `n` bytes at the cursor when the file is long enough, the bytes up to the end on a short read, nothing past the end; the position advances by the number of bytes returned and the content is untouched |
| ImageHeader.Reverse | autodecrypt/decrypt_img.py:18 | `[::-1]` keeps the length and puts byte `k` at position `len-1-k` |
| ImageHeader.ReverseReverse | autodecrypt/decrypt_img.py:18 | reversing twice gives back the original bytes |
| ImageHeader.GetImageType | autodecrypt/decrypt_img.py:13-29 | reading through the cursor (`Read`, with `SeekCur` for `file.seek(n, os.SEEK_CUR)` on lines 17 and 27 and `SeekSet` for `file.seek(7, 0)` on line 21): the "3gmI" magic at offset 0 gives IMG3 with bytes 16..20 reversed (the +12 seek from offset 4); otherwise the "IM4P" magic at offset 7 gives IMG4 with bytes 13..17 unreversed; otherwise `None`; a tag never exceeds four bytes, and the format's name is the "img3"/"img4" string the source returns first in its tuple |
| ImageHeader.Img3TakesPrecedence | autodecrypt/decrypt_img.py:14-23 | a file with both magics is classified IMG3 |
| ImageHeader.ShortFileIsNotImage | autodecrypt/decrypt_img.py:21-26 | a non-IMG3 file shorter than 11 bytes is not an image |
| ImageHeader.FormatIff | autodecrypt/decrypt_img.py:14-29 | the classifier succeeds exactly when one of the magics is present, and reports IMG3 exactly when the IMG3 magic is present |
| ImageHeader.TagLength | autodecrypt/decrypt_img.py:18-28 | the tag is a full four bytes exactly when the file reaches offset 20 (IMG3) or offset 17 (IMG4) |
| ImageHeader.Img3RoundTrip | autodecrypt/decrypt_img.py:14-19 | an IMG3 container laid out with a tag stored byte-reversed classifies back to that tag |
| ImageHeader.Img4RoundTrip | autodecrypt/decrypt_img.py:21-29 | an IMG4 payload laid out with a tag (and no IMG3 magic in front) classifies back to that tag |
| PathRewrite.ReplaceAll | autodecrypt/decrypt_img.py:39 | `str.replace` never lengthens a string when the replacement is no longer than the pattern, and never shortens it when it is no shorter |
| PathRewrite.ReplaceAllIsJoinOfSplit | autodecrypt/decrypt_img.py:39 | for a non-empty pattern, `s.replace(p, r)` equals `r.join(s.split(p))` |
| PathRewrite.SplitPiecesFree | autodecrypt/decrypt_img.py:39 | no piece of `s.split(p)` contains `p` |
| PathRewrite.SplitPiecesAvoid | autodecrypt/decrypt_img.py:39 | the pieces of a string that avoids `q` avoid `q` |
| PathRewrite.JoinAvoids | autodecrypt/decrypt_img.py:39 | joining pieces that avoid `q` with a separator no occurrence of `q` can overlap gives a string that avoids `q` |
| PathRewrite.ReplaceAllAbsent | autodecrypt/decrypt_img.py:39 | a string without the pattern is returned unchanged |
| PathRewrite.ReplaceAllSelf | autodecrypt/decrypt_img.py:39 | replacing a pattern by itself changes nothing |
| PathRewrite.ReplaceAllChanges | autodecrypt/decrypt_img.py:39 | a string containing the pattern is changed by any different replacement |
| PathRewrite.ReplaceAllFixedIff | autodecrypt/decrypt_img.py:39 | a string is a fixed point of replacing `p` by a different `r` exactly when it does not contain `p` |
| PathRewrite.ReplaceAllShrinks | autodecrypt/decrypt_img.py:39 | a shorter replacement strictly shortens a string containing the pattern |
| PathRewrite.ReplaceAllAppend | autodecrypt/decrypt_img.py:39 | when no occurrence straddles the boundary, replacing in `a + b` is replacing in `a` and in `b` separately |
| PathRewrite.ReplaceAllRemoves | autodecrypt/decrypt_img.py:39 | after replacing `p` by a string that cannot host part of `p`, no occurrence of `p` remains |
| PathRewrite.ReplaceAllPreservesAbsence | autodecrypt/decrypt_img.py:39 | such a replacement creates no occurrence of another pattern that was absent |
| PathRewrite.OutputPath | autodecrypt/decrypt_img.py:39 | the chain "im4p", then "dfu", then "img3" to "bin" yields a path containing none of the three patterns |
| PathRewrite.OutputPathIsClean | autodecrypt/decrypt_img.py:39 | the output path contains none of "im4p", "dfu", "img3" |
| PathRewrite.OutputPathUnchangedIff | autodecrypt/decrypt_img.py:39 | the output path equals the input path exactly when the input contains none of the three substrings |
| PathRewrite.OutputPathIdempotent | autodecrypt/decrypt_img.py:39 | deriving the output path of an output path changes nothing |
| PathRewrite.OutputPathSplitsAtDot | autodecrypt/decrypt_img.py:39 | the parts of a path before and after a '.' are rewritten independently |
| PathRewrite.OutputPathOfSuffix | autodecrypt/decrypt_img.py:39 | a trailing ".img3", ".im4p" or ".dfu" becomes ".bin", whatever precedes it |
| PathRewrite.OutputPathOfExtension | autodecrypt/decrypt_img.py:39 | `<stem>.img3`, `<stem>.im4p` and `<stem>.dfu` become `<stem>.bin` for a stem holding none of the patterns |
| PathRewrite.FirmwareImg3Example | autodecrypt/decrypt_img.py:39 | "firmware.img3" becomes "firmware.bin" |
| PathRewrite.FirmwareIm4pExample | autodecrypt/decrypt_img.py:39 | "firmware.im4p" becomes "firmware.bin" |
| PathRewrite.AllRulesApply | autodecrypt/decrypt_img.py:39 | all three rules apply in turn: `<stem>.dfu.img3` becomes `<stem>.bin.bin` |
| Dispatch.DecryptCommand | autodecrypt/decrypt_img.py:34-69 | no header gives "not an image" whatever `magic` is; a command is built exactly when there is a header and `magic` is "img3" or "img4"; any other `magic` gives "not supported"; the tools read the command as decrypting `infile` to the derived output path, with the IV followed by the key as one argument for img4 and as `-iv`/`-k` for xpwntool |
| Dispatch.DecryptImg | autodecrypt/decrypt_img.py:10-69 | a missing file gives "file not found"; a file with neither magic gives "not an image"; for a file with one of the magics a command is built exactly when `magic` is "img3" or "img4", any other `magic` gives "not supported", and the command is read by the tools as decrypting the file to the derived output path with the IV and key in place |
| Dispatch.DecryptArgv | autodecrypt/decrypt_img.py:45-62 | the exact argument vectors `["img4","-i",in,out,iv+key]` and `["xpwntool",in,out,"-iv",iv,"-k",key]` |
| Dispatch.DetectedFormatIgnored | autodecrypt/decrypt_img.py:34-47 | any two detected headers lead to the same outcome |
| Dispatch.MagicOverridesDetection | autodecrypt/decrypt_img.py:14-52 | an IMG3 file decrypted with `magic` "img4" is handed to the img4 tool |
| Dispatch.Img3Dispatch | autodecrypt/decrypt_img.py:39-62 | `<stem>.img3` goes to xpwntool with output `<stem>.bin` |
| Dispatch.Img4Dispatch | autodecrypt/decrypt_img.py:39-53 | `<stem>.im4p` goes to img4 with output `<stem>.bin` and the credential `iv + key` |
| Dispatch.Img3DispatchExample | autodecrypt/decrypt_img.py:39-62 | "firmware.img3" with IV "aabbccdd" and key "00112233" gives the xpwntool command writing "firmware.bin" |
| Dispatch.Img4DispatchExample | autodecrypt/decrypt_img.py:39-53 | "firmware.im4p" with the same IV and key gives the img4 command with the credential "aabbccdd00112233" |
| Kbag.LeadingRun | autodecrypt/decrypt_img.py:75 | the longest whitespace-free prefix: a prefix, free of whitespace, ending at the end or before a whitespace byte |
| Kbag.IsSpaceIsAsciiWhitespace | autodecrypt/decrypt_img.py:75 | `IsSpace`, the separator test of `bytes.split()`, holds for exactly the six bytes b' \t\n\r\x0b\f' that Python treats as ASCII whitespace |
| Kbag.SplitWhitespace | autodecrypt/decrypt_img.py:75 | `bytes.split()` yields only non-empty, whitespace-free tokens; that each token is a maximal run is pinned for the first token only (`Kbag.SplitHeadIsFirstToken`), the one line 75 uses |
| Kbag.SplitEmptyIffBlank | autodecrypt/decrypt_img.py:75 | `out.split()` is empty exactly when `out` is all whitespace |
| Kbag.SplitHeadIsFirstToken | autodecrypt/decrypt_img.py:75 | the first element of `out.split()` is the first token of `out`: only whitespace precedes it and it is a maximal whitespace-free run |
| Kbag.FirstTokenUnique | autodecrypt/decrypt_img.py:75 | a byte string has at most one first token |
| Kbag.SplitKeepsContent | autodecrypt/decrypt_img.py:75 | the tokens, put back together, are exactly the non-whitespace bytes of the output |
| Kbag.FirstToken | autodecrypt/decrypt_img.py:75 | `out.split()[0]` raises `IndexError` exactly when the output is empty or all whitespace, and otherwise returns its first token |
| Kbag.FirstTokenOfLeading | autodecrypt/decrypt_img.py:75 | output opening with a whitespace-free token followed by whitespace or nothing yields that token |
| Kbag.KbagExample | autodecrypt/decrypt_img.py:75 | output "a1b2c3d4 " followed by anything yields "a1b2c3d4" |
| Kbag.KbagArgv | autodecrypt/decrypt_img.py:74 | the key-bag command is read by the img4 tool as "print the key bag of this file" |

## Left out

- `os.path.isfile` and opening the file (lines 10-13) are not modelled. The file is a parameter: its bytes, or `None` when the path is not a regular file.
- `subprocess.Popen`, the `/dev/null` redirection and the `FileNotFoundError` handling for a missing tool (lines 43, 50-66) are not modelled. They are operating-system process plumbing, so the model returns the argument vector instead of starting a process.
- `subprocess.check_output` (line 74) is not modelled. The tool's output is a parameter, and the `CalledProcessError` raised on a non-zero exit status depends on the external tool.
- `print`, `logging` and `sys.exit` are not modelled, because they are side effects. The ways `decrypt_img` ends are the constructors of `Dispatch.Outcome`, and the exit codes (-1 and 1) appear only in their documentation.
- The process started by `Popen` runs concurrently and is never awaited. Its completion is outside the model.
- Kbag.FirstToken: returns the token as bytes, without the final `.decode("UTF-8")` and its possible `UnicodeDecodeError`. UTF-8 decoding is a foreign codec.
- Kbag.SplitWhitespace: pins the maximal-run shape only for the first token, because line 75 reads only `[0]`; later tokens are stated to be non-empty and whitespace-free, and together to hold exactly the non-whitespace bytes.
