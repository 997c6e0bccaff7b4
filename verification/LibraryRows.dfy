/** What the additions of src/library.c store, told from the tables before and after: which row each
    id that is returned or stored names, and which rows are new. */
module LibraryRows {
  import opened Common
  import opened Library
  import opened LibraryTree

  /** `id` names the artist: the row that has the name already, else a new one; 0 for none. */
  ghost predicate NamesArtist(before: map<nat, string>, after: map<nat, string>, name: Option<string>, id: nat) {
    if name.None? then id == 0 && after == before
    else
      && after == before[id := name.value] && id > 0
      && (id in before ==> before[id] == name.value)
      && (forall a :: a in before && before[a] == name.value ==> id == a)
  }

  /** The same for an album; a new one has no tracks yet. */
  ghost predicate NamesAlbum(before: map<nat, Album>, after: map<nat, Album>, name: Option<string>, id: nat) {
    if name.None? then id == 0 && after == before
    else
      && after.Keys == before.Keys + {id} && id > 0
      && (forall a :: a in before ==> after[a] == before[a])
      && after[id].name == name.value
      && (id !in before ==> after[id].tracks == 0)
      && (forall a :: a in before && before[a].name == name.value ==> id == a)
  }

  /** The same for a file, which is inserted only into a directory. */
  ghost predicate NamesFile(before: map<nat, File>, after: map<nat, File>, path: string, directory: int, id: nat) {
    && (forall f :: f in before && before[f].path == path ==> id == f)
    && (if id == 0 then after == before && directory <= 0
        else if id in before then after == before && before[id].path == path
        else directory > 0 && after == before[id := File(path, directory)])
  }

  ghost predicate NamesDirectory(
      before: map<nat, Directory>, after: map<nat, Directory>, path: string, parent: int, id: nat)
  {
    && (forall d :: d in before && before[d].path == path ==> id == d)
    && (if id == 0 then after == before && parent < 0
        else if id in before then after == before && before[id].path == path
        else parent >= 0 && after == before[id := Directory(path, parent)])
  }

  lemma ArtistAdded(db: Db, name: Option<string>)
    requires Positive(db) && UniqueArtists(db.artists)
    ensures var (db', id) := AddArtist(db, name);
      db' == db.(artists := db'.artists) && NamesArtist(db.artists, db'.artists, name, id)
  {
    if name.Some? {
      var id := ArtistId(db, name.value);
      assert id != 0 ==> db.artists[id := name.value] == db.artists;
    }
  }

  lemma AlbumAdded(db: Db, name: Option<string>)
    requires Positive(db) && UniqueAlbums(db.albums)
    ensures var (db', id) := AddAlbum(db, name);
      db' == db.(albums := db'.albums) && NamesAlbum(db.albums, db'.albums, name, id)
  {
  }

  lemma FileAdded(db: Db, path: string, directory: int)
    requires Positive(db) && UniqueFiles(db.files)
    ensures var (db', id) := AddFile(db, path, directory);
      db' == db.(files := db'.files) && NamesFile(db.files, db'.files, path, directory, id)
  {
  }

  /** library_directory stores the path and the parent it is given, or finds the row of the path. */
  lemma DirectoryAdded(db: Db, path: string, parent: int)
    requires Positive(db) && UniqueDirectories(db.directories)
    ensures var (db', id) := AddDirectory(db, path, parent);
      db' == db.(directories := db'.directories)
      && NamesDirectory(db.directories, db'.directories, path, parent, id)
  {
  }

  /** library_image_add stores the file it is given, in a row of its own. */
  lemma ImageAdded(db: Db, file: nat)
    ensures var (db', id) := AddImage(db, file);
      && db' == db.(images := db'.images)
      && id !in db.images && db'.images.Keys == db.images.Keys + {id} && db'.images[id].fileid == file
      && forall i :: i in db.images ==> db'.images[i] == db.images[i]
  {
  }

  // ---------------------------------------------------------------- tracks

  /** The file and the cue file, one after the other; 0 where there is no cue file. */
  ghost predicate NamesFiles(
      before: map<nat, File>, after: map<nat, File>, info: TrackInfo, directory: int, fileid: nat, cuefileid: nat)
  {
    exists between ::
      && NamesFile(before, between, info.file, directory, fileid)
      && if info.cuefile.None? then cuefileid == 0 && after == between
         else NamesFile(between, after, info.cuefile.value, directory, cuefileid)
  }

  /** The album of the track, which has one track more than before. */
  ghost predicate CountsAlbum(before: map<nat, Album>, after: map<nat, Album>, name: Option<string>, id: nat) {
    if name.None? then id == 0 && after == before
    else exists named ::
      && NamesAlbum(before, named, name, id)
      && after.Keys == named.Keys
      && (forall a :: a in named && a != id ==> after[a] == named[a])
      && after[id] == Album(named[id].name, named[id].tracks + 1)
  }

  lemma FilesAdded(db: Db, info: TrackInfo, directory: int)
    requires Keyed(db)
    ensures var (db', fileid, cuefileid) := AddTrackFiles(db, info, directory);
      db' == db.(files := db'.files) && NamesFiles(db.files, db'.files, info, directory, fileid, cuefileid)
  {
    FileAdded(db, info.file, directory);
    if info.cuefile.Some? {
      FileAdded(AddFile(db, info.file, directory).0, info.cuefile.value, directory);
    }
  }

  lemma TrackCounted(db: Db, t: Track, name: Option<string>, before: map<nat, Album>)
    requires NamesAlbum(before, db.albums, name, t.albumid)
    ensures var (db', id) := InsertTrack(db, t, name.Some?);
      && db' == db.(tracks := db'.tracks, albums := db'.albums)
      && id !in db.tracks && db'.tracks == db.tracks[id := t]
      && CountsAlbum(before, db'.albums, name, t.albumid)
  {
  }

  /** What library_track_add stores, in every store with its keys: one row more, with the title, with
      the rowids of the artist, the album, the file and the cue file, or 0 where there is none; a
      name or a path that had a row keeps it, another one gets a row of its own. */
  lemma TrackAdded(db: Db, info: TrackInfo, directory: int)
    requires Keyed(db)
    ensures var (db', id) := AddTrack(db, info, directory);
      && id !in db.tracks && db'.tracks.Keys == db.tracks.Keys + {id}
      && (forall t :: t in db.tracks ==> db'.tracks[t] == db.tracks[t])
      && var row := db'.tracks[id];
      && row.title == info.title
      && NamesArtist(db.artists, db'.artists, info.artist, row.artistid)
      && CountsAlbum(db.albums, db'.albums, info.album, row.albumid)
      && NamesFiles(db.files, db'.files, info, directory, row.fileid, row.cuefileid)
      && db'.directories == db.directories && db'.images == db.images
  {
    var (db2, fileid, cuefileid) := AddTrackFiles(db, info, directory);
    FilesAdded(db, info, directory);
    ArtistAdded(db2, info.artist);
    var (db3, artistid) := AddArtist(db2, info.artist);
    AlbumAdded(db3, info.album);
    var (db4, albumid) := AddAlbum(db3, info.album);
    TrackCounted(db4, Track(fileid, cuefileid, artistid, albumid, info.title), info.album, db.albums);
  }

  // ---------------------------------------------------------------- deletions

  /** Exactly the tracks and images of these files are gone, no other has changed, and each album has
      its name still and counts the tracks that are left. */
  ghost predicate Cleared(before: Db, after: Db, files: set<nat>) {
    && (forall t :: t in after.tracks <==> t in before.tracks && before.tracks[t].fileid !in files)
    && (forall t :: t in after.tracks ==> after.tracks[t] == before.tracks[t])
    && (forall i :: i in after.images <==> i in before.images && before.images[i].fileid !in files)
    && (forall i :: i in after.images ==> after.images[i] == before.images[i])
    && after.artists == before.artists && after.albums.Keys == before.albums.Keys
    && (forall a :: a in after.albums ==> after.albums[a].name == before.albums[a].name)
    && (forall a :: a in after.albums ==>
          after.albums[a].tracks == |set t | t in after.tracks && after.tracks[t].albumid == a|)
  }

  lemma RemoveClears(db: Db, directories: set<nat>, files: set<nat>)
    ensures Cleared(db, Remove(db, directories, files), files)
  {
    var r := Remove(db, directories, files);
    forall a | a in r.albums
      ensures r.albums[a].tracks == |set t | t in r.tracks && r.tracks[t].albumid == a|
    {
      assert AlbumTracks(r.tracks, a) == set t | t in r.tracks && r.tracks[t].albumid == a;
    }
  }

  /** library_file_clear takes the tracks and images of the file, and no row of another kind. */
  lemma FileCleared(db: Db, file: nat)
    requires Counted(db.albums, db.tracks)
    ensures var db' := ClearFile(db, file);
      Cleared(db, db', {file}) && db'.files == db.files && db'.directories == db.directories
  {
    DeleteFileRemoves(db, file);
    RemoveClears(db, {}, {file});
    assert ClearFile(db, file).albums == DeleteFile(db, file).albums;
  }

  /** library_file_delete takes its own row as well. */
  lemma FileDeleted(db: Db, file: nat)
    requires Counted(db.albums, db.tracks)
    ensures var db' := DeleteFile(db, file);
      && Cleared(db, db', {file}) && db'.directories == db.directories
      && (forall f :: f in db'.files <==> f in db.files && f != file)
      && forall f :: f in db'.files ==> db'.files[f] == db.files[f]
  {
    DeleteFileRemoves(db, file);
    RemoveClears(db, {}, {file});
  }

  /** The directory and what its parents lead to: every set that holds it and all children of its
      members has it. */
  ghost predicate AtOrBelow(t: map<nat, Directory>, d: nat, e: nat) {
    forall s: set<nat> :: d in s && Closed(t, s) ==> e in s
  }

  lemma BelowAtOrBelow(t: map<nat, Directory>, d: nat, e: nat)
    ensures AtOrBelow(t, d, e) <==> e in Below(t, d)
  {
    BelowIsLeast(t, d, {});
    if e in Below(t, d) {
      forall s: set<nat> | d in s && Closed(t, s)
        ensures e in s
      {
        BelowIsLeast(t, d, s);
      }
    }
  }

  /** library_directory_delete takes exactly the directories at or below the one given, the files in
      them, and these files' tracks and images. */
  lemma TreeDeleted(db: Db, d: nat)
    ensures var db' := DeleteTree(db, d);
      && (forall e :: e in db'.directories <==> e in db.directories && !AtOrBelow(db.directories, d, e))
      && (forall e :: e in db'.directories ==> db'.directories[e] == db.directories[e])
      && (forall f :: f in db'.files <==> f in db.files && !AtOrBelow(db.directories, d, db.files[f].directory))
      && (forall f :: f in db'.files ==> db'.files[f] == db.files[f])
      && Cleared(db, db', db.files.Keys - db'.files.Keys)
  {
    var below := Below(db.directories, d);
    var files := FilesIn(db, below);
    forall e
      ensures AtOrBelow(db.directories, d, e) <==> e in below
    {
      BelowAtOrBelow(db.directories, d, e);
    }
    RemoveClears(db, below, files);
    assert db.files.Keys - DeleteTree(db, d).files.Keys == files;
  }
}
