/**
 * The `GET /photos` listing of server.js: keep the directory entries that look like images,
 * then sort them by the timestamp embedded in each name, newest first.
 */
module PhotoListing {
  import opened Wrappers
  import opened JsText
  import opened PhotoNames

  // ---------------------------------------------------------------------------------------
  // files.filter(file => file.match(/\.(jpg|jpeg|png)$/i))
  // ---------------------------------------------------------------------------------------

  /**
   * The image entries of a directory listing, in directory order: an entry is kept exactly
   * when it passes the extension filter.
   */
  function Images(files: seq<string>): (images: seq<string>)
    ensures |images| <= |files|
    ensures forall f :: f in images <==> f in files && IsImageName(f)
  {
    if files == [] then []
    else
      assert files == [files[0]] + files[1..];
      if IsImageName(files[0]) then [files[0]] + Images(files[1..]) else Images(files[1..])
  }

  /** Filtering keeps every occurrence of an image entry and none of any other entry. */
  lemma {:induction false} ImagesKeepOccurrences(files: seq<string>, f: string)
    ensures multiset(Images(files))[f] == if IsImageName(f) then multiset(files)[f] else 0
  {
    if files != [] {
      ImagesKeepOccurrences(files[1..], f);
      assert files == [files[0]] + files[1..];
    }
  }

  /** Filtering works entry by entry: the images of a concatenation are concatenated. */
  lemma {:induction false} ImagesOfConcat(a: seq<string>, b: seq<string>)
    ensures Images(a + b) == Images(a) + Images(b)
  {
    if a != [] {
      ImagesOfConcat(a[1..], b);
      assert (a + b)[0] == a[0] && (a + b)[1..] == a[1..] + b;
    } else {
      assert a + b == b;
    }
  }

  /** A single entry is kept exactly when it passes the extension filter. */
  lemma ImagesOfOne(f: string)
    ensures Images([f]) == if IsImageName(f) then [f] else []
  {
    assert [f][1..] == [];
  }

  // ---------------------------------------------------------------------------------------
  // .sort((a, b) => timeB - timeA)
  // ---------------------------------------------------------------------------------------

  /**
   * The sort is stated over `time`, the timestamp the comparator reads for each name; the
   * comparator recomputes it from the name on every call, and the same name always gives the
   * same value, so a table of them is equivalent. Every name to be sorted has an entry.
   */
  predicate Timed(names: seq<string>, time: map<string, int>) {
    forall n :: n in names ==> n in time
  }

  /** Non-increasing timestamps: the newest photo comes first. */
  predicate NewestFirst(names: seq<string>, time: map<string, int>)
    requires Timed(names, time)
  {
    forall i, j :: 0 <= i < j < |names| ==> time[names[i]] >= time[names[j]]
  }

  /**
   * Places `name` in a newest-first sequence, before every entry that is not newer, so that it
   * stays ahead of the entries with the same timestamp that came after it in the input.
   */
  function Insert(name: string, sorted: seq<string>, time: map<string, int>): (r: seq<string>)
    requires name in time && Timed(sorted, time) && NewestFirst(sorted, time)
    ensures multiset(r) == multiset(sorted) + multiset{name}
    ensures Timed(r, time) && NewestFirst(r, time)
  {
    if sorted == [] || time[sorted[0]] <= time[name] then [name] + sorted
    else
      var tail := Insert(name, sorted[1..], time);
      InsertBelowHead(name, sorted, tail, time);
      [sorted[0]] + tail
  }

  /** The head of a newest-first sequence that is newer than `name` stays ahead of it. */
  lemma InsertBelowHead(name: string, sorted: seq<string>, tail: seq<string>, time: map<string, int>)
    requires name in time && sorted != [] && Timed(sorted, time) && NewestFirst(sorted, time)
    requires time[sorted[0]] > time[name]
    requires multiset(tail) == multiset(sorted[1..]) + multiset{name}
    requires Timed(tail, time) && NewestFirst(tail, time)
    ensures multiset([sorted[0]] + tail) == multiset(sorted) + multiset{name}
    ensures Timed([sorted[0]] + tail, time) && NewestFirst([sorted[0]] + tail, time)
  {
    assert sorted == [sorted[0]] + sorted[1..];
    var r := [sorted[0]] + tail;
    forall j | 0 <= j < |tail| ensures time[sorted[0]] >= time[tail[j]] {
      assert tail[j] in multiset(tail);
      if tail[j] != name {
        assert tail[j] in multiset(sorted[1..]);
        assert tail[j] in sorted[1..];
      }
    }
    forall i, j | 0 <= i < j < |r| ensures time[r[i]] >= time[r[j]] {
      if i > 0 {
        assert r[i] == tail[i - 1] && r[j] == tail[j - 1];
      } else {
        assert r[j] == tail[j - 1];
      }
    }
  }

  /**
   * The sort of the listing: a stable sort by descending timestamp. The result is a
   * permutation of the input and is newest first.
   */
  function SortNewestFirst(names: seq<string>, time: map<string, int>): (r: seq<string>)
    requires Timed(names, time)
    ensures multiset(r) == multiset(names)
    ensures Timed(r, time) && NewestFirst(r, time)
  {
    if names == [] then []
    else
      assert names == [names[0]] + names[1..];
      Insert(names[0], SortNewestFirst(names[1..], time), time)
  }

  /** The names carrying timestamp `t`, in order. */
  function WithTime(names: seq<string>, time: map<string, int>, t: int): seq<string> {
    if names == [] then []
    else
      (if names[0] in time && time[names[0]] == t then [names[0]] else [])
      + WithTime(names[1..], time, t)
  }

  lemma WithTimeCons(x: string, rest: seq<string>, time: map<string, int>, t: int)
    requires x in time
    ensures WithTime([x] + rest, time, t) == (if time[x] == t then [x] else []) + WithTime(rest, time, t)
  {
    assert ([x] + rest)[1..] == rest;
  }

  /** Inserting `name` puts it ahead of every name that shares its timestamp. */
  lemma {:induction false} InsertKeepsTies(name: string, sorted: seq<string>, time: map<string, int>, t: int)
    requires name in time && Timed(sorted, time) && NewestFirst(sorted, time)
    ensures WithTime(Insert(name, sorted, time), time, t) ==
      (if time[name] == t then [name] else []) + WithTime(sorted, time, t)
  {
    var mine := if time[name] == t then [name] else [];
    if sorted == [] || time[sorted[0]] <= time[name] {
      assert Insert(name, sorted, time) == [name] + sorted;
      WithTimeCons(name, sorted, time, t);
    } else {
      var tail := Insert(name, sorted[1..], time);
      assert Insert(name, sorted, time) == [sorted[0]] + tail;
      InsertKeepsTies(name, sorted[1..], time, t);
      var head := if time[sorted[0]] == t then [sorted[0]] else [];
      var w := WithTime(sorted[1..], time, t);
      WithTimeCons(sorted[0], tail, time, t);
      assert WithTime([sorted[0]] + tail, time, t) == head + (mine + w);
      assert sorted == [sorted[0]] + sorted[1..];
      WithTimeCons(sorted[0], sorted[1..], time, t);
      assert WithTime(sorted, time, t) == head + w;
      // `name` is strictly older than the head, so at most one of them carries `t`.
      assert head == [] || mine == [];
      EmptyFrontsCommute(head, mine, w);
    }
  }

  /** Two fronts of which one is empty can be swapped. */
  lemma EmptyFrontsCommute(head: seq<string>, mine: seq<string>, w: seq<string>)
    requires head == [] || mine == []
    ensures head + (mine + w) == mine + (head + w)
  {
    if head == [] {
      assert head + (mine + w) == mine + w;
      assert head + w == w;
    } else {
      assert mine + w == w;
      assert mine + (head + w) == head + w;
    }
  }

  /**
   * Stability: among names with the same timestamp, the sort keeps the input order (the
   * comparator returns 0 for them, and `Array.prototype.sort` is stable).
   */
  lemma {:induction false} SortIsStable(names: seq<string>, time: map<string, int>, t: int)
    requires Timed(names, time)
    ensures WithTime(SortNewestFirst(names, time), time, t) == WithTime(names, time, t)
  {
    if names != [] {
      SortIsStable(names[1..], time, t);
      InsertKeepsTies(names[0], SortNewestFirst(names[1..], time), time, t);
    }
  }

  // ---------------------------------------------------------------------------------------
  // The listing as a whole
  // ---------------------------------------------------------------------------------------

  /** The timestamp of every name, for names that all have one. */
  function Timestamps(names: seq<string>): (time: map<string, int>)
    requires forall n :: n in names ==> TimestampOf(n).Ok?
    ensures Timed(names, time)
    ensures forall n :: n in names ==> time[n] == TimestampOf(n).value
  {
    map n | n in names :: TimestampOf(n).value
  }

  datatype ListError =
    | ComparatorThrows   // some image name has no `_`: reading its timestamp throws a TypeError
    | NoTimestamp        // some image name yields NaN: the comparator gives no consistent order

  /** A name without `_` is a name without a timestamp. */
  lemma ThrowingNameHasNoTimestamp(images: seq<string>)
    requires exists n :: n in images && '_' !in n
    ensures exists n :: n in images && TimestampOf(n).Err?
  {
    var n :| n in images && '_' !in n;
    assert TimestampOf(n).Err?;
  }

  /** Every name has a timestamp, and they do not increase along the sequence. */
  predicate NewestFirstByName(names: seq<string>) {
    forall i, j :: 0 <= i < j < |names| ==>
      TimestampOf(names[i]).Ok? && TimestampOf(names[j]).Ok? &&
      TimestampOf(names[i]).value >= TimestampOf(names[j]).value
  }

  /** Sorted by the table of timestamps, the names are in non-increasing embedded timestamp. */
  lemma SortedByTimestamp(images: seq<string>)
    requires forall n :: n in images ==> TimestampOf(n).Ok?
    ensures NewestFirstByName(SortNewestFirst(images, Timestamps(images)))
  {
    var time := Timestamps(images);
    var sorted := SortNewestFirst(images, time);
    forall k | 0 <= k < |sorted| ensures sorted[k] in images {
      assert sorted[k] in multiset(sorted);
    }
  }

  /**
   * The photos the listing returns for a directory holding `files`. The sort only consults the
   * comparator when there are at least two images, so a single image is listed whatever its
   * name. With two or more, a name without `_` makes the comparator throw, and otherwise a
   * name without a timestamp is reported as an error. A listing that succeeds is a
   * permutation of the image entries, newest first.
   */
  function ListPhotos(files: seq<string>): (r: Result<seq<string>, ListError>)
    ensures r.Err? <==>
      |Images(files)| >= 2 && exists n :: n in Images(files) && TimestampOf(n).Err?
    ensures r == Err(ComparatorThrows) <==>
      |Images(files)| >= 2 && exists n :: n in Images(files) && '_' !in n
    ensures r.Ok? ==> multiset(r.value) == multiset(Images(files))
    ensures r.Ok? ==> NewestFirstByName(r.value)
  {
    var images := Images(files);
    if |images| < 2 then Ok(images)
    else if exists n :: n in images && '_' !in n then
      ThrowingNameHasNoTimestamp(images);
      Err(ComparatorThrows)
    else if exists n :: n in images && TimestampOf(n).Err? then Err(NoTimestamp)
    else
      SortedByTimestamp(images);
      Ok(SortNewestFirst(images, Timestamps(images)))
  }

  /** When every image has a timestamp, the listing is the sorted images. */
  lemma ListingOfTimedImages(files: seq<string>)
    requires forall n :: n in Images(files) ==> TimestampOf(n).Ok?
    ensures |Images(files)| >= 2 ==>
      ListPhotos(files) == Ok(SortNewestFirst(Images(files), Timestamps(Images(files))))
  {
    var images := Images(files);
    assert forall n :: n in images ==> '_' in n;
  }

  /**
   * Photos taken in the same millisecond keep their directory order in the listing.
   */
  lemma ListingIsStable(files: seq<string>, t: int)
    requires ListPhotos(files).Ok? && |Images(files)| >= 2
    ensures forall n :: n in Images(files) ==> TimestampOf(n).Ok?
    ensures WithTime(ListPhotos(files).value, Timestamps(Images(files)), t)
         == WithTime(Images(files), Timestamps(Images(files)), t)
  {
    var images := Images(files);
    assert forall n :: n in images ==> TimestampOf(n).Ok?;
    ListingOfTimedImages(files);
    SortIsStable(images, Timestamps(images), t);
  }

  /**
   * A directory whose images all came through the upload handler lists without error, and
   * every uploaded photo appears in the listing.
   */
  lemma UploadsAreListed(files: seq<string>)
    requires forall f :: f in files && IsImageName(f) ==> exists t: nat :: f == PhotoName(t)
    ensures ListPhotos(files).Ok?
    ensures forall t: nat :: PhotoName(t) in files ==> PhotoName(t) in ListPhotos(files).value
  {
    var images := Images(files);
    forall n | n in images ensures TimestampOf(n).Ok? {
      var t: nat :| n == PhotoName(t);
      PhotoNameRoundTrip(t);
    }
    var r := ListPhotos(files).value;
    forall t: nat | PhotoName(t) in files ensures PhotoName(t) in r {
      PhotoNameIsImage(t);
      assert PhotoName(t) in multiset(images);
      assert PhotoName(t) in multiset(r);
    }
  }

  /** Three names with distinct timestamps sort by them, newest first. */
  lemma SortThree(a: string, b: string, c: string, time: map<string, int>)
    requires a in time && b in time && c in time
    requires time[a] < time[c] < time[b]
    ensures SortNewestFirst([a, b, c], time) == [b, c, a]
  {
    assert Insert(c, [], time) == [c];
    assert [a, b, c][1..] == [b, c] && [b, c][1..] == [c];
    assert SortNewestFirst([c], time) == [c];
    assert Insert(b, [c], time) == [b, c];
    assert Insert(a, [], time) == [a];
    assert Insert(a, [c], time) == [c, a];
    assert Insert(a, [b, c], time) == [b, c, a];
  }

  /** Filtering drops a non-image entry and keeps the images in order. */
  lemma ImagesDropOne(a: string, junk: string, b: string, c: string)
    requires IsImageName(a) && !IsImageName(junk) && IsImageName(b) && IsImageName(c)
    ensures Images([a, junk, b, c]) == [a, b, c]
  {
    assert [c][1..] == [];
    assert Images([c]) == [c];
    assert [b, c][1..] == [c];
    assert Images([b, c]) == [b, c];
    assert [junk, b, c][1..] == [b, c];
    assert Images([junk, b, c]) == [b, c];
    assert [a, junk, b, c][1..] == [junk, b, c];
  }

  /** Three images with distinct timestamps beside a non-image entry list newest first. */
  lemma ListingOfThree(a: string, junk: string, b: string, c: string)
    requires IsImageName(a) && !IsImageName(junk) && IsImageName(b) && IsImageName(c)
    requires TimestampOf(a).Ok? && TimestampOf(b).Ok? && TimestampOf(c).Ok?
    requires TimestampOf(a).value < TimestampOf(c).value < TimestampOf(b).value
    ensures ListPhotos([a, junk, b, c]) == Ok([b, c, a])
  {
    ImagesDropOne(a, junk, b, c);
    var images := [a, b, c];
    ListingOfTimedImages([a, junk, b, c]);
    SortThree(a, b, c, Timestamps(images));
  }

  /**
   * Uploads at `x`, `y` and `z` ms with `x < z < y`, beside a stray text file, list as the
   * `y`, `z` and `x` photos.
   */
  lemma ListingOfThreeUploads(x: nat, y: nat, z: nat)
    requires x < z < y
    ensures ListPhotos([PhotoName(x), "notes.txt", PhotoName(y), PhotoName(z)])
         == Ok([PhotoName(y), PhotoName(z), PhotoName(x)])
  {
    PhotoNameIsImage(x);
    PhotoNameIsImage(y);
    PhotoNameIsImage(z);
    ImageNameRejectsText();
    PhotoNameRoundTrip(x);
    PhotoNameRoundTrip(y);
    PhotoNameRoundTrip(z);
    ListingOfThree(PhotoName(x), "notes.txt", PhotoName(y), PhotoName(z));
  }

  /** Uploads at 100, 300 and 200 ms beside a stray text file list as 300, 200, 100. */
  lemma ListingExample()
    ensures ListPhotos([PhotoName(100), "notes.txt", PhotoName(300), PhotoName(200)])
         == Ok([PhotoName(300), PhotoName(200), PhotoName(100)])
  {
    ListingOfThreeUploads(100, 300, 200);
  }

  /** A lone image is listed whatever its name: the comparator is never called. */
  lemma LoneForeignImageIsListed()
    ensures ListPhotos(["cat.png"]) == Ok(["cat.png"])
  {
    EndsWithCaseVariant("cat", ".png", ".png");
    assert "cat" + ".png" == "cat.png";
    assert ["cat.png"][1..] == [];
    assert Images(["cat.png"]) == ["cat.png"];
  }

  /** Beside any upload, an image named without `_` makes the listing fail instead of sorting. */
  lemma ForeignImageBreaksListing(t: nat)
    ensures ListPhotos(["cat.png", PhotoName(t)]) == Err(ComparatorThrows)
  {
    EndsWithCaseVariant("cat", ".png", ".png");
    assert "cat" + ".png" == "cat.png";
    PhotoNameIsImage(t);
    var files := ["cat.png", PhotoName(t)];
    assert files[1..] == [PhotoName(t)];
    assert Images(files) == files;
    assert "cat.png" in Images(files) && '_' !in "cat.png";
  }
}
