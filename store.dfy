/** The upload directory seen as a store from file name to file content, and
    the two endpoints over it as pure functions: the effect of one upload and
    the filtered directory listing. */
module MusicStore {
  import opened Names

  newtype byte = x: int | 0 <= x < 256

  /** The upload directory: every file in it, by name. */
  type Directory = map<string, seq<byte>>

  datatype Option<T> = None | Some(value: T)

  const BadRequestStatus: int := 400
  const FormatDetail: string := "Only MP3 or WAV files are allowed"
  const MessagePrefix: string := "File "
  const MessageSuffix: string := " uploaded successfully"

  /** What the upload endpoint answers: the success message, or the client
      error raised for a name with another extension. */
  datatype UploadResult =
    | Uploaded(message: string)
    | BadRequest(status: int, detail: string)

  /** The directory after one upload request, and the answer to it. */
  datatype UploadOutcome = UploadOutcome(files: Directory, result: UploadResult)

  /** The success message, which embeds the uploaded file name. */
  function SuccessMessage(name: string): (m: string) {
    MessagePrefix + name + MessageSuffix
  }

  /** Recovers the file name from a success message. */
  function MessageFileName(message: string): (r: Option<string>)
    ensures r.Some? ==> SuccessMessage(r.value) == message
  {
    if |MessagePrefix| + |MessageSuffix| <= |message|
       && message[..|MessagePrefix|] == MessagePrefix
       && message[|message| - |MessageSuffix|..] == MessageSuffix
    then
      var name := message[|MessagePrefix|..|message| - |MessageSuffix|];
      assert message == message[..|MessagePrefix|] + name + message[|message| - |MessageSuffix|..];
      Some(name)
    else
      None
  }

  /** The message names the uploaded file, and the name can be read back from it. */
  lemma MessageRoundTrip(name: string)
    ensures MessageFileName(SuccessMessage(name)) == Some(name)
  {
    var m := SuccessMessage(name);
    assert m[..|MessagePrefix|] == MessagePrefix;
    assert m[|m| - |MessageSuffix|..] == MessageSuffix;
    assert m[|MessagePrefix|..|m| - |MessageSuffix|] == name;
  }

  /** One upload request: a name the filter rejects is answered with 400 and
      nothing is written; any other name is written (opening with "wb"
      truncates, so an existing file of that name is replaced) and answered
      with the success message. */
  function Upload(files: Directory, name: string, content: seq<byte>): (o: UploadOutcome)
    ensures o.result.BadRequest? <==> !IsAllowed(name)
    ensures !IsAllowed(name) ==> o.files == files && o.result == BadRequest(BadRequestStatus, FormatDetail)
    ensures IsAllowed(name) ==>
      && name in o.files && o.files[name] == content
      && o.files.Keys == files.Keys + {name}
      && (forall k :: k in files && k != name ==> o.files[k] == files[k])
      && MessageFileName(o.result.message) == Some(name)
  {
    if !IsAllowed(name) then
      UploadOutcome(files, BadRequest(BadRequestStatus, FormatDetail))
    else
      MessageRoundTrip(name);
      UploadOutcome(files[name := content], Uploaded(SuccessMessage(name)))
  }

  /** Uploading to a name that already exists replaces its content: it is not
      an error and the directory gains no entry. */
  lemma UploadOverwrites(files: Directory, name: string, content: seq<byte>)
    requires name in files && IsAllowed(name)
    ensures Upload(files, name, content).result.Uploaded?
    ensures Upload(files, name, content).files.Keys == files.Keys
    ensures |Upload(files, name, content).files| == |files|
    ensures Upload(files, name, content).files[name] == content
  {
    var after := Upload(files, name, content).files;
    assert after.Keys == files.Keys;
  }

  /** Uploading the same name twice keeps only the second content. */
  lemma UploadTwiceKeepsLast(files: Directory, name: string, first: seq<byte>, second: seq<byte>)
    ensures Upload(Upload(files, name, first).files, name, second).files
         == Upload(files, name, second).files
  {
  }

  predicate Distinct(s: seq<string>) {
    forall i, j :: 0 <= i < j < |s| ==> s[i] != s[j]
  }

  /** `order` is a listing of the directory: each file name once, in whatever
      order the directory hands them out. */
  predicate IsListingOf(order: seq<string>, files: Directory) {
    && Distinct(order)
    && (forall x :: x in order ==> x in files)
    && (forall x :: x in files ==> x in order)
  }

  /** The names the music endpoint reports, in directory order. */
  function FilterAllowed(names: seq<string>): (r: seq<string>)
    ensures |r| <= |names|
    ensures forall x :: x in r <==> x in names && IsAllowed(x)
  {
    if names == [] then []
    else (if IsAllowed(names[0]) then [names[0]] else []) + FilterAllowed(names[1..])
  }

  /** Filtering keeps order: the filter of a concatenation is the
      concatenation of the filters. */
  lemma {:induction false} FilterAppend(a: seq<string>, b: seq<string>)
    ensures FilterAllowed(a + b) == FilterAllowed(a) + FilterAllowed(b)
  {
    if a == [] {
      assert a + b == b;
    } else {
      assert (a + b)[1..] == a[1..] + b;
      FilterAppend(a[1..], b);
    }
  }

  /** Filtering a name on its own keeps it exactly when the check accepts it. */
  lemma FilterSingle(name: string)
    ensures FilterAllowed([name]) == if IsAllowed(name) then [name] else []
  {
    assert [name][1..] == [];
  }

  /** A listing without repeated names yields a result without repeated names. */
  lemma {:induction false} FilterDistinct(names: seq<string>)
    requires Distinct(names)
    ensures Distinct(FilterAllowed(names))
  {
    if names != [] {
      var rest := names[1..];
      assert Distinct(rest) by {
        forall i, j | 0 <= i < j < |rest| ensures rest[i] != rest[j] {
          assert rest[i] == names[i + 1] && rest[j] == names[j + 1];
        }
      }
      FilterDistinct(rest);
      assert names[0] !in rest;
    }
  }

  /** The names of files the check accepts. */
  function AllowedNames(files: Directory): (names: set<string>) {
    set k | k in files && IsAllowed(k)
  }

  /** The listing is exactly the accepted names in the directory, each once;
      files with other extensions are never reported. */
  lemma ListingIsAllowedNames(files: Directory, order: seq<string>)
    requires IsListingOf(order, files)
    ensures Distinct(FilterAllowed(order))
    ensures forall x :: x in FilterAllowed(order) <==> x in AllowedNames(files)
    ensures |FilterAllowed(order)| == |AllowedNames(files)|
  {
    var r := FilterAllowed(order);
    FilterDistinct(order);
    DistinctCardinality(r);
    assert (set x | x in r) == AllowedNames(files);
  }

  lemma {:induction false} DistinctCardinality(s: seq<string>)
    requires Distinct(s)
    ensures |set x | x in s| == |s|
  {
    if s != [] {
      var rest := s[1..];
      assert Distinct(rest) by {
        forall i, j | 0 <= i < j < |rest| ensures rest[i] != rest[j] {
          assert rest[i] == s[i + 1] && rest[j] == s[j + 1];
        }
      }
      DistinctCardinality(rest);
      assert (set x | x in s) == (set x | x in rest) + {s[0]};
      assert s[0] !in rest;
    }
  }

  /** A name occurs once in a sequence without repetitions, and not at all if absent. */
  lemma {:induction false} DistinctMultiplicity(s: seq<string>, x: string)
    requires Distinct(s)
    ensures multiset(s)[x] == if x in s then 1 else 0
  {
    if s != [] {
      var rest := s[1..];
      assert s == [s[0]] + rest;
      assert Distinct(rest) by {
        forall i, j | 0 <= i < j < |rest| ensures rest[i] != rest[j] {
          assert rest[i] == s[i + 1] && rest[j] == s[j + 1];
        }
      }
      DistinctMultiplicity(rest, x);
      assert s[0] !in rest;
    }
  }

  /** Two listings of the same directory report the same names, each once,
      whatever order the directory hands them out in. */
  lemma ListingOrderIrrelevant(files: Directory, order1: seq<string>, order2: seq<string>)
    requires IsListingOf(order1, files) && IsListingOf(order2, files)
    ensures multiset(FilterAllowed(order1)) == multiset(FilterAllowed(order2))
  {
    var r1, r2 := FilterAllowed(order1), FilterAllowed(order2);
    FilterDistinct(order1);
    FilterDistinct(order2);
    forall x ensures multiset(r1)[x] == multiset(r2)[x] {
      DistinctMultiplicity(r1, x);
      DistinctMultiplicity(r2, x);
    }
  }

  /** After an accepted upload the uploaded name is in every listing. */
  lemma UploadThenListed(files: Directory, name: string, content: seq<byte>, order: seq<string>)
    requires IsAllowed(name)
    requires IsListingOf(order, Upload(files, name, content).files)
    ensures name in FilterAllowed(order)
  {
  }

  /** An accepted upload adds its name to the reported names and changes no
      other; a rejected upload changes nothing reported. */
  lemma UploadListedNames(files: Directory, name: string, content: seq<byte>)
    ensures AllowedNames(Upload(files, name, content).files) ==
      if IsAllowed(name) then AllowedNames(files) + {name} else AllowedNames(files)
  {
  }
}
