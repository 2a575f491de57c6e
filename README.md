# Music upload backend: the upload filter and the upload directory

This project models the logic that the music upload backend owns. The service
keeps audio files in one upload directory and has two endpoints:

- `POST /upload` takes one file. If the file name, lower-cased, does not end in
  `.mp3` or `.wav`, the request fails with status 400 and the detail
  "Only MP3 or WAV files are allowed". Otherwise the content is written under
  that name. The file is opened for writing with truncation, so a file that
  already has that name is replaced. The answer is the message
  "File <name> uploaded successfully".
- `GET /music` lists the directory and returns the names that pass the same
  filter, in the order the directory gives them.

The model has three modules:

- `Names` (`names.dfy`) holds the filter `IsAllowed`, with ASCII lower-casing.
  It also holds a reference definition written on characters,
  `EndsWithAudioExtension`, and lemmas about case-insensitivity and suffix
  matching.
- `MusicStore` (`store.dfy`) treats the directory as a map from file name to
  content (`Directory`). `Upload` is the effect of one upload request, as a pure
  function. `FilterAllowed` is the listing filter. The listing order is a
  parameter, because the operating system's directory order is not part of the
  code. `IsListingOf` says what such an order is: each file name exactly once.
- `MusicDirectories` (`directory.dfy`) holds the class `MusicDirectory`, whose
  `files` field is the directory. `UploadFile` updates that field in place, as
  the endpoint writes the file. `GetMusicList` is a read-only function of the
  field, so listing cannot change the directory.

`main.py` has no duplicate-name rejection, no size cap and no eviction, no
delete endpoint and no API-key check. An upload to an existing name overwrites
the file.

## Model

| member | source | states |
|---|---|---|
| `Names.LowerChar` | main.py:26 | ASCII lower-casing of one character (the model of `str.lower` per character): an upper-case letter becomes its lower-case letter, every other character is unchanged, and the result is never upper-case |
| `Names.Lower` | main.py:26 | lower-casing a name (the `lower()` of main.py:26 and main.py:35) keeps its length and leaves no upper-case letter |
| `Names.IsAllowedIffAudioExtension` | main.py:26 | the filter `IsAllowed` (lower-case, then `endswith(('.mp3', '.wav'))`, used at main.py:26 and main.py:35): a name passes exactly when its last four characters are a dot followed by `mp3` or `wav` in any casing (both directions) |
| `Names.IsAllowedByLastFour` | main.py:26 | a name passes exactly when it has at least four characters and the lower-cased last four are `.mp3` or `.wav` |
| `Names.AcceptsEveryCasing` | main.py:26 | any stem followed by any casing of `.mp3` or `.wav` is accepted, including the empty stem |
| `Names.CaseInsensitive` | main.py:26 | two names that agree character by character after lower-casing get the same verdict |
| `Names.IsAllowedOfLower` | main.py:26 | lower-casing a name before the check does not change the verdict |
| `Names.AcceptedExamples` | main.py:26 | `A.MP3`, `b.Wav`, `c.mp3`, a bare `.mp3` and a bare `.WAV` are accepted |
| `Names.RejectedExamples` | main.py:26-27 | `song.txt`, `mp3`, `x.mp3.txt`, `a.mp4` and the empty name are rejected |
| `MusicStore.Upload` | main.py:26-31 | answers 400 with the fixed detail exactly when the filter rejects the name, and then the directory is unchanged; otherwise the name maps to exactly the uploaded content, the key set gains only that name, every other file keeps its content, and the message names the file |
| `MusicStore.MessageFileName` | main.py:31 | a file name read back from a message rebuilds that same message |
| `MusicStore.MessageRoundTrip` | main.py:31 | the name can be read back from the success message `SuccessMessage` ("File <name> uploaded successfully") built for it |
| `MusicStore.UploadOverwrites` | main.py:29 | uploading to an existing accepted name succeeds, keeps the key set and the number of files, and stores the new content |
| `MusicStore.UploadTwiceKeepsLast` | main.py:29-30 | two uploads to one name leave the directory as the second upload alone would |
| `MusicStore.FilterAllowed` | main.py:35 | the listing has no more entries than the directory, and a name is in it exactly when it is in the directory order and passes the filter |
| `MusicStore.FilterAppend` | main.py:35 | filtering keeps directory order: the filter of a concatenation is the concatenation of the filters |
| `MusicStore.FilterDistinct` | main.py:35 | a directory order without repeats gives a listing without repeats |
| `MusicStore.ListingIsAllowedNames` | main.py:35 | for a directory listing `order` (`IsListingOf`: each file name of the directory exactly once, the stand-in for what `os.listdir` returns), the result holds exactly the accepted file names, each once, and none with another extension |
| `MusicStore.ListingOrderIrrelevant` | main.py:34-36 | two listings of the same directory, in any directory order, return the same names (the same multiset) |
| `MusicStore.UploadThenListed` | main.py:26-35 | after an accepted upload, every listing of the new directory contains the uploaded name |
| `MusicStore.UploadListedNames` | main.py:26-35 | an accepted upload adds its name to the accepted names and changes no other; a rejected one changes nothing |
| `MusicDirectories.MusicDirectory.UploadFile` | main.py:25-31 | the new directory and the answer are those of `Upload`: rejected names leave `files` unchanged with a 400, accepted ones set `files[name]` and return the message; after an accepted upload every listing contains the name |
| `MusicDirectories.MusicDirectory.GetMusicList` | main.py:34-36 | reads the directory without changing it; returns each accepted file name exactly once and no other name, in directory order (it is `FilterAllowed` of the listing) |

## Left out

- FastAPI set-up, the CORS middleware and the static mount of the upload directory (main.py:8, main.py:14-22). They are framework configuration.
- Creating the upload directory at start-up (main.py:10-12). The constructor of `MusicDirectory` takes the directory's contents as found, which may already include files.
- Streaming the upload with `open` and `shutil.copyfileobj` (main.py:29-30). This is filesystem I/O, modelled as one map update. Write failures, such as a full disk, are not modelled.
- Path joining (main.py:28). The name is not sanitised in the code. A name with separators or `../` reaches another path, or fails because a directory is missing. Here the name is an opaque map key. A file system that folds case or normalises names (as default macOS volumes do) may store or list a name other than the one uploaded; `UploadThenListed` holds for the opaque-key model, not for every such file system.
- A missing file name. FastAPI can hand over no file name, and then `lower()` fails. The model always takes a string.
- Python's `str.lower` covers all of Unicode. The model lower-cases ASCII only. The verdicts differ only for a non-ASCII character that lower-cases into the ASCII tail `.mp3` or `.wav`.
- The directory order that `os.listdir` produces. It is a parameter, `order`, that lists each name once. Entries of the directory that are not files (sub-directories) are not modelled.
- The JSON response bodies and the HTTP transport. Results are the `UploadResult` datatype. The listing is the sequence of names.
- Asynchronous handling and concurrent requests. The code does no coordination.
- Duplicate-name rejection, a size cap with oldest-file eviction, a delete endpoint and an API-key check: `main.py` has none of them.
