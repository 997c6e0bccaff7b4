/** The library store of src/library.c.  A table is a map from rowid to row; an SQL statement is
    an operation on these maps; a new row gets the rowid that SQLite gives it, one above the
    largest in use. */
module Library {
  import opened Common
  import opened LibraryTree

  datatype File = File(path: string, directory: nat)

  /** `tracks` is the stored count of the album's rows in the track table. */
  datatype Album = Album(name: string, tracks: int)

  datatype Track = Track(fileid: nat, cuefileid: nat, artistid: nat, albumid: nat, title: string)

  datatype Image = Image(fileid: nat)

  datatype Db = Db(
    directories: map<nat, Directory>,
    files: map<nat, File>,
    artists: map<nat, string>,
    albums: map<nat, Album>,
    tracks: map<nat, Track>,
    images: map<nat, Image>)

  const EMPTY := Db(map[], map[], map[], map[], map[], map[])

  // ---------------------------------------------------------------- rowids

  lemma {:induction false} MaxExists(keys: set<nat>)
    requires keys != {}
    ensures exists m :: m in keys && forall k :: k in keys ==> k <= m
    decreases keys
  {
    var x :| x in keys;
    if keys != {x} {
      MaxExists(keys - {x});
      var m :| m in keys - {x} && forall k :: k in keys - {x} ==> k <= m;
      var n := if x > m then x else m;
      forall k | k in keys
        ensures k <= n
      {
        assert k != x ==> k in keys - {x};
      }
      assert n in keys;
    }
  }

  function NextRowid(keys: set<nat>): (r: nat)
    ensures r > 0 && forall k :: k in keys ==> k < r
  {
    if keys == {} then 1
    else
      MaxExists(keys);
      var m :| m in keys && forall k :: k in keys ==> k <= m;
      m + 1
  }

  // ---------------------------------------------------------------- invariant

  /** The rows of the track table with this album id. */
  ghost function AlbumTracks(tracks: map<nat, Track>, album: nat): set<nat> {
    set t | t in tracks && tracks[t].albumid == album
  }

  ghost predicate Counted(albums: map<nat, Album>, tracks: map<nat, Track>) {
    forall a :: a in albums ==> albums[a].tracks == |AlbumTracks(tracks, a)|
  }

  // Every reference that the store maintains names a live row.

  ghost predicate FilesLive(directories: map<nat, Directory>, files: map<nat, File>) {
    forall f :: f in files ==> files[f].directory in directories
  }

  ghost predicate TracksLive(files: map<nat, File>, albums: map<nat, Album>, tracks: map<nat, Track>) {
    && (forall t :: t in tracks ==> tracks[t].fileid in files)
    && (forall t :: t in tracks ==> tracks[t].albumid == 0 || tracks[t].albumid in albums)
  }

  ghost predicate ImagesLive(files: map<nat, File>, images: map<nat, Image>) {
    forall i :: i in images ==> images[i].fileid in files
  }

  /** Parents are live or 0, and come before their children. */
  ghost predicate Tree(directories: map<nat, Directory>) {
    && (forall d :: d in directories ==> directories[d].parent < d)
    && (forall d, p {:trigger d in directories, p in directories} ::
          d in directories && directories[d].parent == p && p != 0 ==> p in directories)
  }

  // The UNIQUE columns.

  ghost predicate UniqueDirectories(t: map<nat, Directory>) {
    forall x, y :: x in t && y in t && t[x].path == t[y].path ==> x == y
  }

  ghost predicate UniqueFiles(t: map<nat, File>) {
    forall x, y :: x in t && y in t && t[x].path == t[y].path ==> x == y
  }

  ghost predicate UniqueArtists(t: map<nat, string>) {
    forall x, y :: x in t && y in t && t[x] == t[y] ==> x == y
  }

  ghost predicate UniqueAlbums(t: map<nat, Album>) {
    forall x, y :: x in t && y in t && t[x].name == t[y].name ==> x == y
  }

  /** Rowids start at 1; 0 stands for "none". */
  ghost predicate Positive(db: Db) {
    0 !in db.directories && 0 !in db.files && 0 !in db.artists && 0 !in db.albums
  }

  ghost predicate Invariant(db: Db) {
    && Positive(db)
    && Tree(db.directories)
    && FilesLive(db.directories, db.files)
    && TracksLive(db.files, db.albums, db.tracks)
    && ImagesLive(db.files, db.images)
    && Counted(db.albums, db.tracks)
    && UniqueDirectories(db.directories)
    && UniqueFiles(db.files)
    && UniqueArtists(db.artists)
    && UniqueAlbums(db.albums)
  }

  /** What looking a row up by its name takes. */
  ghost predicate Keyed(db: Db) {
    && Positive(db)
    && UniqueDirectories(db.directories)
    && UniqueFiles(db.files)
    && UniqueArtists(db.artists)
    && UniqueAlbums(db.albums)
  }

  // ---------------------------------------------------------------- lookups and insertions

  // field_rowid on each of the four UNIQUE columns: the row with this value, or 0

  ghost function DirectoryId(db: Db, path: string): (r: nat)
    requires 0 !in db.directories
    ensures if r == 0 then forall d :: d in db.directories ==> db.directories[d].path != path
            else r in db.directories && db.directories[r].path == path
  {
    if d :| d in db.directories && db.directories[d].path == path then d else 0
  }

  ghost function FileId(db: Db, path: string): (r: nat)
    requires 0 !in db.files
    ensures if r == 0 then forall f :: f in db.files ==> db.files[f].path != path
            else r in db.files && db.files[r].path == path
  {
    if f :| f in db.files && db.files[f].path == path then f else 0
  }

  ghost function ArtistId(db: Db, name: string): (r: nat)
    requires 0 !in db.artists
    ensures if r == 0 then forall a :: a in db.artists ==> db.artists[a] != name
            else r in db.artists && db.artists[r] == name
  {
    if a :| a in db.artists && db.artists[a] == name then a else 0
  }

  ghost function AlbumId(db: Db, name: string): (r: nat)
    requires 0 !in db.albums
    ensures if r == 0 then forall a :: a in db.albums ==> db.albums[a].name != name
            else r in db.albums && db.albums[r].name == name
  {
    if a :| a in db.albums && db.albums[a].name == name then a else 0
  }

  /** library_file: look the path up, and insert it unless directory <= 0. */
  ghost function AddFile(db: Db, path: string, directory: int): (r: (Db, nat))
    requires Positive(db)
    ensures Positive(r.0) && r.0 == db.(files := r.0.files) && db.files.Keys <= r.0.files.Keys
    ensures r.1 == 0 || r.1 in r.0.files
  {
    var found := FileId(db, path);
    if found != 0 || directory <= 0 then (db, found)
    else
      var id := NextRowid(db.files.Keys);
      (db.(files := db.files[id := File(path, directory)]), id)
  }

  /** library_directory: the same, unless parent < 0. */
  ghost function AddDirectory(db: Db, path: string, parent: int): (Db, nat)
    requires Positive(db)
  {
    var found := DirectoryId(db, path);
    if found != 0 || parent < 0 then (db, found)
    else
      var id := NextRowid(db.directories.Keys);
      (db.(directories := db.directories[id := Directory(path, parent)]), id)
  }

  /** field_rowid_create on artists and on albums, skipped for a null name */
  ghost function AddArtist(db: Db, name: Option<string>): (r: (Db, nat))
    requires Positive(db)
    ensures Positive(r.0) && r.0 == db.(artists := r.0.artists)
  {
    if name.None? then (db, 0)
    else
      var found := ArtistId(db, name.value);
      if found != 0 then (db, found)
      else
        var id := NextRowid(db.artists.Keys);
        (db.(artists := db.artists[id := name.value]), id)
  }

  ghost function AddAlbum(db: Db, name: Option<string>): (r: (Db, nat))
    requires Positive(db)
    ensures Positive(r.0) && r.0 == db.(albums := r.0.albums)
  {
    if name.None? then (db, 0)
    else
      var found := AlbumId(db, name.value);
      if found != 0 then (db, found)
      else
        var id := NextRowid(db.albums.Keys);
        (db.(albums := db.albums[id := Album(name.value, 0)]), id)
  }

  /** INSERT INTO tracks, then UPDATE albums SET tracks = tracks + 1 if there is an album. */
  ghost function InsertTrack(db: Db, t: Track, hasAlbum: bool): (Db, nat) {
    var id := NextRowid(db.tracks.Keys);
    var albums :=
      if hasAlbum && t.albumid in db.albums then
        db.albums[t.albumid := db.albums[t.albumid].(tracks := db.albums[t.albumid].tracks + 1)]
      else db.albums;
    (db.(tracks := db.tracks[id := t], albums := albums), id)
  }

  datatype TrackInfo = TrackInfo(
    file: string,
    cuefile: Option<string>,
    title: string,
    artist: Option<string>,
    album: Option<string>)

  ghost function AddTrackFiles(db: Db, info: TrackInfo, directory: int): (r: (Db, nat, nat))
    requires Positive(db)
    ensures Positive(r.0) && r.0 == db.(files := r.0.files) && db.files.Keys <= r.0.files.Keys
    ensures r.2 == 0 || r.2 in r.0.files
  {
    var (db1, fileid) := AddFile(db, info.file, directory);
    if info.cuefile.None? then (db1, fileid, 0)
    else
      var (db2, cuefileid) := AddFile(db1, info.cuefile.value, directory);
      (db2, fileid, cuefileid)
  }

  /** library_track_add */
  ghost function AddTrack(db: Db, info: TrackInfo, directory: int): (Db, nat)
    requires Positive(db)
  {
    var (db2, fileid, cuefileid) := AddTrackFiles(db, info, directory);
    var (db3, artistid) := AddArtist(db2, info.artist);
    var (db4, albumid) := AddAlbum(db3, info.album);
    InsertTrack(db4, Track(fileid, cuefileid, artistid, albumid, info.title), info.album.Some?)
  }

  /** library_image_add */
  ghost function AddImage(db: Db, file: nat): (Db, nat) {
    var id := NextRowid(db.images.Keys);
    (db.(images := db.images[id := Image(file)]), id)
  }

  // ---------------------------------------------------------------- deletion

  /** The first statement of library_file_clear: the albums of the file's tracks are recounted
      without these tracks. */
  ghost function RecountAlbums(db: Db, file: nat): map<nat, Album> {
    map a | a in db.albums ::
      if exists t :: t in db.tracks && db.tracks[t].fileid == file && db.tracks[t].albumid == a then
        db.albums[a].(tracks := |set t | t in db.tracks && db.tracks[t].albumid == a && db.tracks[t].fileid != file|)
      else db.albums[a]
  }

  /** library_file_clear, statement by statement */
  ghost function ClearFile(db: Db, file: nat): Db {
    db.(albums := RecountAlbums(db, file),
        tracks := map t | t in db.tracks && db.tracks[t].fileid != file :: db.tracks[t],
        images := map i | i in db.images && db.images[i].fileid != file :: db.images[i])
  }

  /** library_file_delete */
  ghost function DeleteFile(db: Db, file: nat): Db {
    var cleared := ClearFile(db, file);
    cleared.(files := cleared.files - {file})
  }

  ghost function KeptTracks(tracks: map<nat, Track>, files: set<nat>): map<nat, Track> {
    map t | t in tracks && tracks[t].fileid !in files :: tracks[t]
  }

  ghost function KeptImages(images: map<nat, Image>, files: set<nat>): map<nat, Image> {
    map i | i in images && images[i].fileid !in files :: images[i]
  }

  ghost function Recounted(albums: map<nat, Album>, tracks: map<nat, Track>): map<nat, Album> {
    map a | a in albums :: albums[a].(tracks := |AlbumTracks(tracks, a)|)
  }

  /** What deletion means: these directories and files go, with the tracks and images of the
      files, and every remaining album counts the tracks that are left. */
  ghost function Remove(db: Db, directories: set<nat>, files: set<nat>): Db {
    var tracks := KeptTracks(db.tracks, files);
    db.(directories := db.directories - directories,
        files := db.files - files,
        tracks := tracks,
        images := KeptImages(db.images, files),
        albums := Recounted(db.albums, tracks))
  }

  ghost function FilesIn(db: Db, directories: set<nat>): set<nat> {
    set f | f in db.files && db.files[f].directory in directories
  }

  // ---------------------------------------------------------------- deletion of a file

  /** Because the counts are right, recounting some albums recounts all of them. */
  lemma ClearFileRecounts(db: Db, file: nat, a: nat)
    requires Counted(db.albums, db.tracks) && a in db.albums
    ensures ClearFile(db, file).albums[a] == db.albums[a].(tracks := |AlbumTracks(ClearFile(db, file).tracks, a)|)
  {
    var left := ClearFile(db, file).tracks;
    assert AlbumTracks(left, a)
        == set t | t in db.tracks && db.tracks[t].albumid == a && db.tracks[t].fileid != file;
    if !exists t :: t in db.tracks && db.tracks[t].fileid == file && db.tracks[t].albumid == a {
      assert AlbumTracks(left, a) == AlbumTracks(db.tracks, a);
    }
  }

  lemma DeleteFileRemoves(db: Db, file: nat)
    requires Counted(db.albums, db.tracks)
    ensures DeleteFile(db, file) == Remove(db, {}, {file})
  {
    forall a | a in db.albums { ClearFileRecounts(db, file, a); }
    var r := Remove(db, {}, {file});
    assert DeleteFile(db, file).tracks == r.tracks;
    assert DeleteFile(db, file).albums == r.albums;
  }

  // ---------------------------------------------------------------- deletion of a tree

  lemma TracksTwice(tracks: map<nat, Track>, f1: set<nat>, f2: set<nat>)
    ensures KeptTracks(KeptTracks(tracks, f1), f2) == KeptTracks(tracks, f1 + f2)
  {
  }

  lemma ImagesTwice(images: map<nat, Image>, f1: set<nat>, f2: set<nat>)
    ensures KeptImages(KeptImages(images, f1), f2) == KeptImages(images, f1 + f2)
  {
  }

  lemma RecountedTwice(albums: map<nat, Album>, t1: map<nat, Track>, t2: map<nat, Track>)
    ensures Recounted(Recounted(albums, t1), t2) == Recounted(albums, t2)
  {
  }

  lemma RemoveTwice(db: Db, d1: set<nat>, f1: set<nat>, d2: set<nat>, f2: set<nat>)
    ensures Remove(Remove(db, d1, f1), d2, f2) == Remove(db, d1 + d2, f1 + f2)
  {
    TracksTwice(db.tracks, f1, f2);
    ImagesTwice(db.images, f1, f2);
    RecountedTwice(db.albums, KeptTracks(db.tracks, f1), KeptTracks(db.tracks, f1 + f2));
    assert db.directories - d1 - d2 == db.directories - (d1 + d2);
    assert db.files - f1 - f2 == db.files - (f1 + f2);
  }

  lemma RemoveOneMore(db: Db, files: set<nat>, f: nat)
    ensures Remove(Remove(db, {}, files), {}, {f}) == Remove(db, {}, files + {f})
  {
    var none: set<nat> := {};
    assert none + none == none;
    RemoveTwice(db, {}, files, {}, {f});
  }

  lemma RemoveCounts(db: Db, directories: set<nat>, files: set<nat>)
    ensures Counted(Remove(db, directories, files).albums, Remove(db, directories, files).tracks)
  {
  }

  lemma RemoveNothing(db: Db)
    requires Counted(db.albums, db.tracks)
    ensures Remove(db, {}, {}) == db
  {
    assert Remove(db, {}, {}).tracks == db.tracks;
    assert Remove(db, {}, {}).albums == db.albums;
  }

  /** A set of directories that holds the children of all its members can be removed, with the
      files in it, without leaving a dangling reference. */
  lemma RemoveKeepsInvariant(db: Db, directories: set<nat>, files: set<nat>)
    requires Invariant(db) && Closed(db.directories, directories)
    requires FilesIn(db, directories) <= files
    ensures Invariant(Remove(db, directories, files))
  {
    var r := Remove(db, directories, files);
    forall f | f in r.files
      ensures r.files[f].directory in r.directories
    {
      assert f !in FilesIn(db, directories);
    }
  }

  /** Part of what is below `d` is gone: a closed set without `d`, and the files in it and in `d`. */
  ghost predicate Partial(db: Db, d: nat, done: set<nat>) {
    && done <= Below(db.directories, d) - {d}
    && Closed(db.directories, done)
  }

  ghost function PartlyDeleted(db: Db, d: nat, done: set<nat>): Db {
    Remove(db, done, FilesIn(db, done + {d}))
  }

  /** In the states that Invariant allows no deletion of a directory runs for ever. */
  lemma {:induction false} DeletionEnds(db: Db, d: nat)
    requires Invariant(db)
    ensures !OwnAncestor(db.directories, d) && Ends(db.directories, d)
  {
    OrderedHasNoCycle(db.directories, d);
    EndsExactly(db.directories, d);
  }

  lemma {:induction false} PartialStep(db: Db, d: nat, done: set<nat>, c: nat)
    requires !OwnAncestor(db.directories, d) && Partial(db, d, done)
    requires var cur := PartlyDeleted(db, d, done);
      c in cur.directories && cur.directories[c].parent == d
    ensures var cur := PartlyDeleted(db, d, done);
      var below := Below(cur.directories, c);
      && c in below
      && Partial(db, d, done + below)
      && Remove(cur, below, FilesIn(cur, below)) == PartlyDeleted(db, d, done + below)
  {
    var cur := PartlyDeleted(db, d, done);
    var below := Below(cur.directories, c);
    BelowShrinks(db.directories, cur.directories, d, c);
    BelowIsLeast(cur.directories, c, below);
    ClosedTwice(db.directories, cur.directories, done, below);
    RemoveTwice(db, done, FilesIn(db, done + {d}), below, FilesIn(cur, below));
    assert FilesIn(db, done + {d}) + FilesIn(cur, below) == FilesIn(db, done + below + {d});
  }

  /** A closed set of what a closed set leaves. */
  lemma {:induction false} ClosedTwice(
      t: map<nat, Directory>, rest: map<nat, Directory>, done: set<nat>, below: set<nat>)
    requires Closed(t, done) && rest == t - done && Closed(rest, below)
    ensures Closed(t, done + below)
  {
    forall x | x in t && t[x].parent in done + below
      ensures x in done + below
    {
      if x !in done {
        assert x in rest && rest[x] == t[x];
      }
    }
  }

  /** `d` and all that is below it: the directories, the files in them, these files' tracks and
      images. */
  ghost function DeleteTree(db: Db, d: nat): Db {
    Remove(db, Below(db.directories, d), FilesIn(db, Below(db.directories, d)))
  }

  lemma {:induction false} PartialFinish(db: Db, d: nat, done: set<nat>)
    requires Partial(db, d, done)
    requires forall c :: c in PartlyDeleted(db, d, done).directories ==> db.directories[c].parent != d
    ensures Remove(PartlyDeleted(db, d, done), {d}, {}) == DeleteTree(db, d)
  {
    assert forall c :: c in db.directories && c !in done ==> c in PartlyDeleted(db, d, done).directories;
    assert Closed(db.directories, done + {d});
    BelowIsLeast(db.directories, d, done + {d});
    assert Below(db.directories, d) == done + {d};
    var files := FilesIn(db, done + {d});
    RemoveTwice(db, done, files, {d}, {});
    assert files + {} == files;
  }

  lemma DeleteTreeKeepsInvariant(db: Db, d: nat)
    requires Invariant(db)
    ensures Invariant(DeleteTree(db, d))
  {
    BelowIsLeast(db.directories, d, {});
    RemoveKeepsInvariant(db, Below(db.directories, d), FilesIn(db, Below(db.directories, d)));
  }

  lemma DeleteFileKeepsInvariant(db: Db, file: nat)
    requires Invariant(db)
    ensures Invariant(DeleteFile(db, file))
  {
    DeleteFileRemoves(db, file);
    RemoveKeepsInvariant(db, {}, {file});
  }

  lemma ClearFileKeepsInvariant(db: Db, file: nat)
    requires Invariant(db)
    ensures Invariant(ClearFile(db, file))
  {
    forall a | a in db.albums { ClearFileRecounts(db, file, a); }
  }

  // ---------------------------------------------------------------- cue files

  /** Every cue file that a track names exists. */
  ghost predicate CuefilesLive(files: map<nat, File>, tracks: map<nat, Track>) {
    forall t :: t in tracks ==> tracks[t].cuefileid == 0 || tracks[t].cuefileid in files
  }

  /** The cue file of a track is not one of the references that deletion maintains: removing files
      leaves all cue files live if and only if every track whose cue file goes loses its own file
      as well. */
  lemma RemoveKeepsCuefiles(db: Db, directories: set<nat>, files: set<nat>)
    requires CuefilesLive(db.files, db.tracks)
    ensures var r := Remove(db, directories, files);
      CuefilesLive(r.files, r.tracks) <==>
        forall t :: t in db.tracks && db.tracks[t].cuefileid != 0 && db.tracks[t].cuefileid in files ==>
          db.tracks[t].fileid in files
  {
    var r := Remove(db, directories, files);
    if CuefilesLive(r.files, r.tracks) {
      forall t | t in db.tracks && db.tracks[t].cuefileid != 0 && db.tracks[t].cuefileid in files
        ensures db.tracks[t].fileid in files
      {
        assert t !in r.tracks;
      }
    }
  }

  lemma DeleteFileKeepsCuefiles(db: Db, file: nat)
    requires Invariant(db) && CuefilesLive(db.files, db.tracks) && file in db.files
    ensures var r := DeleteFile(db, file);
      CuefilesLive(r.files, r.tracks) <==>
        forall t :: t in db.tracks && db.tracks[t].cuefileid == file ==> db.tracks[t].fileid == file
  {
    DeleteFileRemoves(db, file);
    RemoveKeepsCuefiles(db, {}, {file});
  }

  /** Deleting a tree keeps the cue files live if and only if no track outside it has its cue file
      inside it. */
  lemma DeleteTreeKeepsCuefiles(db: Db, d: nat)
    requires Invariant(db) && CuefilesLive(db.files, db.tracks)
    ensures var r, gone := DeleteTree(db, d), FilesIn(db, Below(db.directories, d));
      CuefilesLive(r.files, r.tracks) <==>
        !exists t :: t in db.tracks && db.tracks[t].cuefileid in gone && db.tracks[t].fileid !in gone
  {
    var gone := FilesIn(db, Below(db.directories, d));
    RemoveKeepsCuefiles(db, Below(db.directories, d), gone);
    assert 0 !in gone;
  }

  // ---------------------------------------------------------------- additions keep the invariant

  lemma InsertFile(db: Db, id: nat, row: File)
    requires Invariant(db) && id > 0 && id !in db.files && row.directory in db.directories
    requires forall f :: f in db.files ==> db.files[f].path != row.path
    ensures Invariant(db.(files := db.files[id := row]))
  {
    var files := db.files[id := row];
    assert FilesLive(db.directories, files);
    assert TracksLive(files, db.albums, db.tracks);
    assert ImagesLive(files, db.images);
    assert UniqueFiles(files);
  }

  lemma AddFileKeepsInvariant(db: Db, path: string, directory: int)
    requires Invariant(db) && (directory <= 0 || directory in db.directories)
    ensures var (db', id) := AddFile(db, path, directory);
      && Invariant(db')
      && db' == db.(files := db'.files) && db.files.Keys <= db'.files.Keys
      && (directory > 0 ==> id in db'.files && db'.files[id].path == path)
  {
    if FileId(db, path) == 0 && directory > 0 {
      InsertFile(db, NextRowid(db.files.Keys), File(path, directory));
    }
  }

  lemma InsertDirectory(db: Db, id: nat, row: Directory)
    requires Invariant(db) && id !in db.directories
    requires row.parent < id && (row.parent == 0 || row.parent in db.directories)
    requires forall d :: d in db.directories ==> db.directories[d].path != row.path
    ensures Invariant(db.(directories := db.directories[id := row]))
  {
    var directories := db.directories[id := row];
    assert Tree(directories);
    assert FilesLive(directories, db.files);
    assert UniqueDirectories(directories);
  }

  lemma AddDirectoryKeepsInvariant(db: Db, path: string, parent: int)
    requires Invariant(db) && (parent <= 0 || parent in db.directories)
    ensures var (db', id) := AddDirectory(db, path, parent);
      && Invariant(db')
      && (parent >= 0 ==> id in db'.directories && db'.directories[id].path == path)
  {
    if DirectoryId(db, path) == 0 && parent >= 0 {
      InsertDirectory(db, NextRowid(db.directories.Keys), Directory(path, parent));
    }
  }

  lemma InsertArtist(artists: map<nat, string>, id: nat, name: string)
    requires UniqueArtists(artists) && id !in artists && forall a :: a in artists ==> artists[a] != name
    ensures UniqueArtists(artists[id := name])
  {
  }

  lemma AddArtistKeepsInvariant(db: Db, name: Option<string>)
    requires Invariant(db)
    ensures var db' := AddArtist(db, name).0; Invariant(db') && db' == db.(artists := db'.artists)
  {
    if name.Some? && ArtistId(db, name.value) == 0 {
      InsertArtist(db.artists, NextRowid(db.artists.Keys), name.value);
    }
  }

  lemma InsertAlbum(db: Db, id: nat, name: string)
    requires Invariant(db) && id > 0 && id !in db.albums && forall a :: a in db.albums ==> db.albums[a].name != name
    ensures var albums := db.albums[id := Album(name, 0)];
      UniqueAlbums(albums) && Counted(albums, db.tracks) && TracksLive(db.files, albums, db.tracks)
  {
    assert forall t :: t in db.tracks ==> db.tracks[t].albumid != id;
    assert AlbumTracks(db.tracks, id) == {};
  }

  /** A new album starts with a count of 0, and no track has its rowid yet. */
  lemma AddAlbumKeepsInvariant(db: Db, name: Option<string>)
    requires Invariant(db)
    ensures var (db', id) := AddAlbum(db, name);
      && Invariant(db')
      && db' == db.(albums := db'.albums)
      && (if name.Some? then id in db'.albums && db'.albums[id].name == name.value else id == 0)
  {
    if name.Some? && AlbumId(db, name.value) == 0 {
      InsertAlbum(db, NextRowid(db.albums.Keys), name.value);
    }
  }

  lemma AlbumTracksInsert(tracks: map<nat, Track>, id: nat, t: Track, a: nat)
    requires id !in tracks
    ensures AlbumTracks(tracks[id := t], a)
         == if a == t.albumid then AlbumTracks(tracks, a) + {id} else AlbumTracks(tracks, a)
  {
  }

  lemma InsertTrackCounts(albums: map<nat, Album>, tracks: map<nat, Track>, id: nat, t: Track)
    requires Counted(albums, tracks) && id !in tracks
    ensures t.albumid !in albums ==> Counted(albums, tracks[id := t])
    ensures t.albumid in albums ==>
      Counted(albums[t.albumid := albums[t.albumid].(tracks := albums[t.albumid].tracks + 1)], tracks[id := t])
  {
    forall a: nat { AlbumTracksInsert(tracks, id, t, a); }
  }

  lemma BumpedAlbum(albums: map<nat, Album>, a: nat, n: int)
    requires UniqueAlbums(albums) && a in albums
    ensures var albums' := albums[a := albums[a].(tracks := n)];
      && UniqueAlbums(albums') && albums'.Keys == albums.Keys
      && forall x :: x in albums ==> albums'[x].name == albums[x].name
  {
  }

  lemma InsertTrackLive(files: map<nat, File>, albums: map<nat, Album>, tracks: map<nat, Track>, id: nat, t: Track)
    requires TracksLive(files, albums, tracks) && t.fileid in files && (t.albumid == 0 || t.albumid in albums)
    ensures TracksLive(files, albums, tracks[id := t])
  {
  }

  lemma InsertTrackKeepsInvariant(db: Db, t: Track, hasAlbum: bool)
    requires Invariant(db) && t.fileid in db.files
    requires if hasAlbum then t.albumid in db.albums else t.albumid == 0
    ensures var (db', id) := InsertTrack(db, t, hasAlbum);
      && Invariant(db')
      && id !in db.tracks && db'.tracks == db.tracks[id := t] && db'.files == db.files
      && (forall a :: a in db.albums ==> a in db'.albums && db'.albums[a].name == db.albums[a].name)
  {
    var (db', id) := InsertTrack(db, t, hasAlbum);
    InsertTrackCounts(db.albums, db.tracks, id, t);
    if hasAlbum {
      BumpedAlbum(db.albums, t.albumid, db.albums[t.albumid].tracks + 1);
      assert TracksLive(db.files, db'.albums, db.tracks);
    }
    InsertTrackLive(db.files, db'.albums, db.tracks, id, t);
  }

  lemma AddSecondFile(db: Db, path: string, directory: int, f: nat)
    requires Invariant(db) && directory in db.directories && f in db.files
    ensures var db' := AddFile(db, path, directory).0;
      Invariant(db') && f in db'.files && db'.files[f] == db.files[f]
  {
    AddFileKeepsInvariant(db, path, directory);
    AddFileKeepsPaths(db, path, directory, f);
  }

  lemma AddTrackFilesKeepsInvariant(db: Db, info: TrackInfo, directory: int)
    requires Invariant(db) && directory in db.directories
    ensures var (db', fileid, _) := AddTrackFiles(db, info, directory);
      && Invariant(db') && db' == db.(files := db'.files)
      && fileid in db'.files && db'.files[fileid].path == info.file
  {
    var (db1, fileid) := AddFile(db, info.file, directory);
    AddFileKeepsInvariant(db, info.file, directory);
    if info.cuefile.None? {
      assert AddTrackFiles(db, info, directory) == (db1, fileid, 0);
    } else {
      AddSecondFile(db1, info.cuefile.value, directory, fileid);
      var (db2, cuefileid) := AddFile(db1, info.cuefile.value, directory);
      assert AddTrackFiles(db, info, directory) == (db2, fileid, cuefileid);
    }
  }

  /** library_track_add counts the track it adds, and the file it names exists afterwards. */
  lemma AddTrackKeepsInvariant(db: Db, info: TrackInfo, directory: int)
    requires Invariant(db) && directory in db.directories
    ensures var (db', id) := AddTrack(db, info, directory);
      && Invariant(db')
      && id !in db.tracks && db'.tracks == db.tracks[id := db'.tracks[id]]
      && db'.tracks[id].fileid in db'.files && db'.files[db'.tracks[id].fileid].path == info.file
      && (info.album.Some? ==>
            db'.tracks[id].albumid in db'.albums && db'.albums[db'.tracks[id].albumid].name == info.album.value)
  {
    var (db2, fileid, cuefileid) := AddTrackFiles(db, info, directory);
    AddTrackFilesKeepsInvariant(db, info, directory);
    var (db3, artistid) := AddArtist(db2, info.artist);
    AddArtistKeepsInvariant(db2, info.artist);
    var (db4, albumid) := AddAlbum(db3, info.album);
    AddAlbumKeepsInvariant(db3, info.album);
    InsertTrackKeepsInvariant(db4, Track(fileid, cuefileid, artistid, albumid, info.title), info.album.Some?);
  }

  lemma AddFileKeepsPaths(db: Db, path: string, directory: int, f: nat)
    requires Positive(db) && f in db.files
    ensures f in AddFile(db, path, directory).0.files && AddFile(db, path, directory).0.files[f] == db.files[f]
  {
  }

  /** Additions never leave a cue file dangling. */
  lemma AddTrackKeepsCuefiles(db: Db, info: TrackInfo, directory: int)
    requires Positive(db) && CuefilesLive(db.files, db.tracks)
    ensures var r := AddTrack(db, info, directory).0; CuefilesLive(r.files, r.tracks)
  {
    var (db2, fileid, cuefileid) := AddTrackFiles(db, info, directory);
    var (db3, artistid) := AddArtist(db2, info.artist);
    var (db4, albumid) := AddAlbum(db3, info.album);
    InsertsCuefile(db4, Track(fileid, cuefileid, artistid, albumid, info.title), info.album.Some?);
  }

  lemma InsertsCuefile(db: Db, t: Track, hasAlbum: bool)
    requires CuefilesLive(db.files, db.tracks) && (t.cuefileid == 0 || t.cuefileid in db.files)
    ensures var r := InsertTrack(db, t, hasAlbum).0; CuefilesLive(r.files, r.tracks)
  {
  }

  // ---------------------------------------------------------------- all runs

  datatype Op =
    | DoAddDirectory(path: string, parent: int)
    | DoAddFile(path: string, directory: int)
    | DoAddTrack(info: TrackInfo, directory: int)
    | DoAddImage(file: nat)
    | DoClearFile(file: nat)
    | DoDeleteFile(file: nat)
    | DoDeleteDirectory(root: nat)

  /** Callers pass ids they have been given for rows that still exist. */
  predicate Allowed(db: Db, op: Op) {
    match op
    case DoAddDirectory(_, parent) => parent <= 0 || parent in db.directories
    case DoAddFile(_, directory) => directory <= 0 || directory in db.directories
    case DoAddTrack(_, directory) => directory in db.directories
    case DoAddImage(file) => file in db.files
    case _ => true
  }

  ghost function Apply(db: Db, op: Op): Db
    requires Positive(db)
  {
    match op
    case DoAddDirectory(path, parent) => AddDirectory(db, path, parent).0
    case DoAddFile(path, directory) => AddFile(db, path, directory).0
    case DoAddTrack(info, directory) => AddTrack(db, info, directory).0
    case DoAddImage(file) => AddImage(db, file).0
    case DoClearFile(file) => ClearFile(db, file)
    case DoDeleteFile(file) => DeleteFile(db, file)
    case DoDeleteDirectory(root) => DeleteTree(db, root)
  }

  lemma InvariantStep(db: Db, op: Op)
    requires Invariant(db) && Allowed(db, op)
    ensures Invariant(Apply(db, op))
  {
    match op
    case DoAddDirectory(path, parent) => AddDirectoryKeepsInvariant(db, path, parent);
    case DoAddFile(path, directory) => AddFileKeepsInvariant(db, path, directory);
    case DoAddTrack(info, directory) => AddTrackKeepsInvariant(db, info, directory);
    case DoAddImage(file) =>
    case DoClearFile(file) => ClearFileKeepsInvariant(db, file);
    case DoDeleteFile(file) => DeleteFileKeepsInvariant(db, file);
    case DoDeleteDirectory(root) => DeleteTreeKeepsInvariant(db, root);
  }

  ghost predicate Possible(db: Db, ops: seq<Op>)
    requires Invariant(db)
    decreases |ops|
  {
    ops == [] || (Allowed(db, ops[0]) && (InvariantStep(db, ops[0]); Possible(Apply(db, ops[0]), ops[1..])))
  }

  ghost function Run(db: Db, ops: seq<Op>): (r: Db)
    requires Invariant(db) && Possible(db, ops)
    ensures Invariant(r)
    decreases |ops|
  {
    if ops == [] then db else InvariantStep(db, ops[0]); Run(Apply(db, ops[0]), ops[1..])
  }

  // ---------------------------------------------------------------- the counts alone, for any ids

  /** The counts are right, and no track has the rowid of an album that is yet to come. */
  ghost predicate CountsRight(db: Db) {
    && Positive(db)
    && Counted(db.albums, db.tracks)
    && forall t :: t in db.tracks ==> db.tracks[t].albumid == 0 || db.tracks[t].albumid in db.albums
  }

  /** Whichever directories and files a deletion removes. */
  lemma RemoveKeepsCounts(db: Db, directories: set<nat>, files: set<nat>)
    requires CountsRight(db)
    ensures CountsRight(Remove(db, directories, files))
  {
  }

  lemma ClearFileKeepsCounts(db: Db, file: nat)
    requires CountsRight(db)
    ensures CountsRight(ClearFile(db, file))
  {
    forall a | a in db.albums { ClearFileRecounts(db, file, a); }
  }

  lemma AddAlbumKeepsCounts(db: Db, name: Option<string>)
    requires CountsRight(db)
    ensures var (db', id) := AddAlbum(db, name);
      CountsRight(db') && if name.Some? then id in db'.albums else id == 0
  {
    if name.Some? && AlbumId(db, name.value) == 0 {
      var id := NextRowid(db.albums.Keys);
      assert forall t :: t in db.tracks ==> db.tracks[t].albumid != id;
      assert AlbumTracks(db.tracks, id) == {};
    }
  }

  lemma InsertTrackKeepsCounts(db: Db, t: Track, hasAlbum: bool)
    requires CountsRight(db) && if hasAlbum then t.albumid in db.albums else t.albumid == 0
    ensures CountsRight(InsertTrack(db, t, hasAlbum).0)
  {
    InsertTrackCounts(db.albums, db.tracks, NextRowid(db.tracks.Keys), t);
  }

  lemma AddTrackKeepsCounts(db: Db, info: TrackInfo, directory: int)
    requires CountsRight(db)
    ensures CountsRight(AddTrack(db, info, directory).0)
  {
    var (db2, fileid, cuefileid) := AddTrackFiles(db, info, directory);
    var (db3, artistid) := AddArtist(db2, info.artist);
    assert CountsRight(db3);
    var (db4, albumid) := AddAlbum(db3, info.album);
    AddAlbumKeepsCounts(db3, info.album);
    InsertTrackKeepsCounts(db4, Track(fileid, cuefileid, artistid, albumid, info.title), info.album.Some?);
  }

  /** One operation with any ids.  A deletion of a directory removes some directories and files,
      whichever the parent ids lead it to, also if it does not end. */
  ghost predicate NextForAnyIds(db: Db, op: Op, db': Db)
    requires Positive(db)
  {
    if op.DoDeleteDirectory? then exists directories, files :: db' == Remove(db, directories, files)
    else db' == Apply(db, op)
  }

  lemma {:induction false} CountsStep(db: Db, op: Op, db': Db)
    requires CountsRight(db) && NextForAnyIds(db, op, db')
    ensures CountsRight(db')
  {
    match op
    case DoAddDirectory(_, _) =>
    case DoAddFile(_, _) =>
    case DoAddTrack(info, directory) => AddTrackKeepsCounts(db, info, directory);
    case DoAddImage(_) =>
    case DoClearFile(file) => ClearFileKeepsCounts(db, file);
    case DoDeleteFile(file) => ClearFileKeepsCounts(db, file);
    case DoDeleteDirectory(_) =>
      var directories, files :| db' == Remove(db, directories, files);
      RemoveKeepsCounts(db, directories, files);
  }

  ghost predicate IsRunForAnyIds(states: seq<Db>, ops: seq<Op>) {
    && |states| == |ops| + 1 && states[0] == EMPTY
    && forall k :: 0 <= k < |ops| && Positive(states[k]) ==> NextForAnyIds(states[k], ops[k], states[k + 1])
  }

  lemma {:induction false} CountsRun(states: seq<Db>, ops: seq<Op>, k: nat)
    requires IsRunForAnyIds(states, ops) && k < |states|
    ensures CountsRight(states[k])
    decreases k
  {
    if k > 0 {
      CountsRun(states, ops, k - 1);
      CountsStep(states[k - 1], ops[k - 1], states[k]);
    }
  }

  /** The counts do not depend on what the ids that callers pass name: in every state of a run with
      any ids, every album's stored count is the number of its track rows. */
  lemma {:induction false} CountsForAnyIds(states: seq<Db>, ops: seq<Op>, k: nat)
    requires IsRunForAnyIds(states, ops) && k < |states|
    ensures var db := states[k];
      forall a :: a in db.albums ==> db.albums[a].tracks == |set t | t in db.tracks && db.tracks[t].albumid == a|
  {
    var db := states[k];
    CountsRun(states, ops, k);
    forall a | a in db.albums
      ensures db.albums[a].tracks == |set t | t in db.tracks && db.tracks[t].albumid == a|
    {
      assert AlbumTracks(db.tracks, a) == set t | t in db.tracks && db.tracks[t].albumid == a;
    }
  }

  // ---------------------------------------------------------------- a cue file that dangles

  lemma NextRowidIs(keys: set<nat>, m: nat)
    requires forall k :: k in keys <==> 0 < k <= m
    ensures NextRowid(keys) == m + 1
  {
    if m > 0 {
      assert m in keys;
    }
  }

  const CUE_TRACK := TrackInfo("/m/a", Some("/m/a.cue"), "a", Some("b"), Some("c"))

  const ROOT_DB := EMPTY.(directories := map[1 := Directory("/m", 0)])

  const FILES_DB := ROOT_DB.(files := map[1 := File("/m/a", 1), 2 := File("/m/a.cue", 1)])

  const NAMES_DB := FILES_DB.(artists := map[1 := "b"], albums := map[1 := Album("c", 0)])

  const CUE_DB := NAMES_DB.(albums := map[1 := Album("c", 1)], tracks := map[1 := Track(1, 2, 1, 1, "a")])

  /** With an id that names nothing yet the first directory is added as its own parent, and its
      deletion does not end. */
  lemma {:induction false} OwnParent(path: string)
    ensures Positive(EMPTY)
    ensures var (db, d) := AddDirectory(EMPTY, path, 1); OwnAncestor(db.directories, d) && !Ends(db.directories, d)
  {
    NextRowidIs(EMPTY.directories.Keys, 0);
    var (db, d) := AddDirectory(EMPTY, path, 1);
    assert UpTo(db.directories, 1, 0, 1);
    EndsExactly(db.directories, d);
  }

  lemma AddsRoot()
    ensures Positive(EMPTY) && AddDirectory(EMPTY, "/m", 0).0 == ROOT_DB
  {
    NextRowidIs(EMPTY.directories.Keys, 0);
  }

  lemma AddsCueFiles()
    ensures Positive(ROOT_DB) && AddTrackFiles(ROOT_DB, CUE_TRACK, 1) == (FILES_DB, 1, 2)
  {
    NextRowidIs(ROOT_DB.files.Keys, 0);
    var db := ROOT_DB.(files := map[1 := File("/m/a", 1)]);
    assert AddFile(ROOT_DB, "/m/a", 1) == (db, 1);
    assert FileId(db, "/m/a.cue") == 0 by { assert "/m/a" != "/m/a.cue"; }
    NextRowidIs(db.files.Keys, 1);
    assert AddFile(db, "/m/a.cue", 1) == (FILES_DB, 2);
  }

  lemma AddsCueNames()
    ensures Positive(FILES_DB)
    ensures var (db, artistid) := AddArtist(FILES_DB, Some("b"));
      artistid == 1 && AddAlbum(db, Some("c")) == (NAMES_DB, 1)
  {
    NextRowidIs(FILES_DB.artists.Keys, 0);
    NextRowidIs(FILES_DB.albums.Keys, 0);
    var (db, artistid) := AddArtist(FILES_DB, Some("b"));
    assert db == FILES_DB.(artists := map[1 := "b"]);
  }

  lemma AddsCueTrack()
    ensures Positive(ROOT_DB) && AddTrack(ROOT_DB, CUE_TRACK, 1).0 == CUE_DB
  {
    AddsCueFiles();
    AddsCueNames();
    NextRowidIs(NAMES_DB.tracks.Keys, 0);
    assert InsertTrack(NAMES_DB, Track(1, 2, 1, 1, "a"), true).0 == CUE_DB;
  }

  lemma {:induction false} RunFirst(db: Db, op: Op, ops: seq<Op>)
    requires Invariant(db) && Allowed(db, op) && Invariant(Apply(db, op)) && Possible(Apply(db, op), ops)
    ensures Possible(db, [op] + ops) && Run(db, [op] + ops) == Run(Apply(db, op), ops)
  {
    assert ([op] + ops)[1..] == ops;
  }

  lemma DeletesCuefile()
    requires Invariant(CUE_DB)
    ensures var db := DeleteFile(CUE_DB, 2); !CuefilesLive(db.files, db.tracks)
  {
    var db := DeleteFile(CUE_DB, 2);
    assert db.tracks[1].cuefileid == 2 && 2 !in db.files;
  }

  lemma {:induction false} RunOne(db: Db, op: Op)
    requires Invariant(db) && Allowed(db, op)
    ensures Possible(db, [op]) && Run(db, [op]) == Apply(db, op)
  {
    InvariantStep(db, op);
    RunFirst(db, op, []);
    assert [op] + [] == [op];
  }

  const CUE_OPS := [DoAddDirectory("/m", 0)] + ([DoAddTrack(CUE_TRACK, 1)] + [DoDeleteFile(2)])

  lemma CueTrackRun()
    ensures Invariant(ROOT_DB) && Possible(ROOT_DB, CUE_OPS[1..])
    ensures Run(ROOT_DB, CUE_OPS[1..]) == DeleteFile(CUE_DB, 2)
    ensures Invariant(CUE_DB)
  {
    AddsRoot();
    InvariantStep(EMPTY, DoAddDirectory("/m", 0));
    AddsCueTrack();
    InvariantStep(ROOT_DB, DoAddTrack(CUE_TRACK, 1));
    RunOne(CUE_DB, DoDeleteFile(2));
    RunFirst(ROOT_DB, DoAddTrack(CUE_TRACK, 1), [DoDeleteFile(2)]);
    assert CUE_OPS[1..] == [DoAddTrack(CUE_TRACK, 1)] + [DoDeleteFile(2)];
  }

  /** A run in which a cue file is deleted under its track: the track stays and names no row. */
  lemma CuefileDangles()
    ensures Invariant(EMPTY) && Possible(EMPTY, CUE_OPS)
    ensures var db := Run(EMPTY, CUE_OPS); !CuefilesLive(db.files, db.tracks)
  {
    AddsRoot();
    CueTrackRun();
    RunFirst(EMPTY, DoAddDirectory("/m", 0), CUE_OPS[1..]);
    assert CUE_OPS == [DoAddDirectory("/m", 0)] + CUE_OPS[1..];
    DeletesCuefile();
  }

  /** After any sequence of additions, clearings and deletions, every album's stored count is the
      number of its track rows, and tracks, images, files and directories name live rows. */
  lemma {:induction false} CountsAndReferences(ops: seq<Op>)
    requires Possible(EMPTY, ops)
    ensures var db := Run(EMPTY, ops);
      && (forall a :: a in db.albums ==> db.albums[a].tracks == |set t | t in db.tracks && db.tracks[t].albumid == a|)
      && (forall t :: t in db.tracks ==> db.tracks[t].fileid in db.files)
      && (forall i :: i in db.images ==> db.images[i].fileid in db.files)
      && (forall f :: f in db.files ==> db.files[f].directory in db.directories)
      && (forall d :: d in db.directories ==>
            var p := db.directories[d].parent; p < d && (p == 0 || p in db.directories))
  {
    var db := Run(EMPTY, ops);
    forall a | a in db.albums
      ensures db.albums[a].tracks == |set t | t in db.tracks && db.tracks[t].albumid == a|
    {
      assert AlbumTracks(db.tracks, a) == set t | t in db.tracks && db.tracks[t].albumid == a;
    }
  }
}
