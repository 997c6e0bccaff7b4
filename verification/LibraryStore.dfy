/** The tables as mutable state: the functions of src/library.c as methods that reassign them, each
    proved to take the store from one state to the next as Library says. */
module LibraryStore {
  import opened Common
  import opened Library
  import opened LibraryRows
  import opened LibraryTree

  ghost function Incremented(albums: map<nat, Album>, album: nat): map<nat, Album> {
    if album in albums then albums[album := albums[album].(tracks := albums[album].tracks + 1)] else albums
  }

  lemma RecountsKept(db: Db, file: nat)
    requires Counted(db.albums, db.tracks)
    ensures Counted(RecountAlbums(db, file), KeptTracks(db.tracks, {file}))
  {
    assert ClearFile(db, file).tracks == KeptTracks(db.tracks, {file});
    forall a | a in db.albums { ClearFileRecounts(db, file, a); }
  }

  /** The deletions do not depend on the counts. */
  lemma ClearFileSame(db: Db, recounted: Db, file: nat)
    requires recounted == db.(albums := recounted.albums)
    ensures ClearFile(recounted, file).tracks == ClearFile(db, file).tracks
    ensures ClearFile(recounted, file).images == ClearFile(db, file).images
  {
  }

  class Store {
    var directories: map<nat, Directory>
    var files: map<nat, File>
    var artists: map<nat, string>
    var albums: map<nat, Album>
    var tracks: map<nat, Track>
    var images: map<nat, Image>

    ghost function View(): Db
      reads this
    {
      Db(directories, files, artists, albums, tracks, images)
    }

    ghost predicate Valid()
      reads this
    {
      Invariant(View())
    }

    constructor ()
      ensures Valid() && View() == EMPTY
    {
      directories, files, artists, albums, tracks, images := map[], map[], map[], map[], map[], map[];
    }

    // ------------------------------------------------------------ additions

    // Each does what it says for any ids; the invariant is kept when these name rows.

    /** library_file */
    method FileRow(path: string, directory: int) returns (id: nat)
      requires Keyed(View())
      modifies this`files
      ensures Keyed(View()) && (View(), id) == AddFile(old(View()), path, directory)
      ensures old(Valid()) && (directory <= 0 || directory in directories) ==> Valid()
    {
      if Valid() && (directory <= 0 || directory in directories) {
        AddFileKeepsInvariant(View(), path, directory);
      }
      if f :| f in files && files[f].path == path {
        return f;
      }
      if directory <= 0 {
        return 0;
      }
      id := NextRowid(files.Keys);
      files := files[id := File(path, directory)];
    }

    /** library_directory */
    method DirectoryRow(path: string, parent: int) returns (id: nat)
      requires Keyed(View())
      modifies this`directories
      ensures Keyed(View()) && (View(), id) == AddDirectory(old(View()), path, parent)
      ensures old(Valid()) && (parent <= 0 || parent in old(directories)) ==> Valid()
    {
      if Valid() && (parent <= 0 || parent in directories) {
        AddDirectoryKeepsInvariant(View(), path, parent);
      }
      if d :| d in directories && directories[d].path == path {
        return d;
      }
      if parent < 0 {
        return 0;
      }
      id := NextRowid(directories.Keys);
      directories := directories[id := Directory(path, parent)];
    }

    /** field_rowid_create("artists", "name", ...) */
    method ArtistRow(name: string) returns (id: nat)
      requires Keyed(View())
      modifies this`artists
      ensures Keyed(View()) && (View(), id) == AddArtist(old(View()), Some(name))
      ensures NamesArtist(old(artists), artists, Some(name), id)
    {
      ArtistAdded(View(), Some(name));
      if a :| a in artists && artists[a] == name {
        return a;
      }
      id := NextRowid(artists.Keys);
      artists := artists[id := name];
    }

    /** field_rowid_create("albums", "name", ...) */
    method AlbumRow(name: string) returns (id: nat)
      requires Keyed(View())
      modifies this`albums
      ensures Keyed(View()) && (View(), id) == AddAlbum(old(View()), Some(name))
      ensures NamesAlbum(old(albums), albums, Some(name), id)
    {
      AlbumAdded(View(), Some(name));
      if a :| a in albums && albums[a].name == name {
        return a;
      }
      id := NextRowid(albums.Keys);
      albums := albums[id := Album(name, 0)];
    }

    /** increment_album_tracks: if the counts were right before a track was inserted, they are right
        again. */
    method IncrementAlbumTracks(album: nat)
      modifies this`albums
      ensures albums == Incremented(old(albums), album)
      ensures forall id :: id in tracks && tracks[id].albumid == album && Counted(old(albums), tracks - {id}) ==>
        Counted(albums, tracks)
    {
      forall id | id in tracks && tracks[id].albumid == album && Counted(albums, tracks - {id})
        ensures Counted(Incremented(albums, album), tracks)
      {
        InsertTrackCounts(albums, tracks - {id}, id, tracks[id]);
        assert (tracks - {id})[id := tracks[id]] == tracks;
      }
      if album in albums {
        albums := albums[album := albums[album].(tracks := albums[album].tracks + 1)];
      }
    }

    /** The end of library_track_add */
    method InsertRow(t: Track, hasAlbum: bool) returns (id: nat)
      requires Keyed(View())
      modifies this`tracks, this`albums
      ensures (View(), id) == InsertTrack(old(View()), t, hasAlbum)
    {
      id := NextRowid(tracks.Keys);
      tracks := tracks[id := t];
      if hasAlbum {
        IncrementAlbumTracks(t.albumid);
      }
    }

    /** The file and the cue file of library_track_add */
    method TrackFiles(info: TrackInfo, directory: int) returns (fileid: nat, cuefileid: nat)
      requires Keyed(View())
      modifies this`files
      ensures Keyed(View()) && (View(), fileid, cuefileid) == AddTrackFiles(old(View()), info, directory)
    {
      cuefileid := 0;
      fileid := FileRow(info.file, directory);
      if info.cuefile.Some? {
        cuefileid := FileRow(info.cuefile.value, directory);
      }
    }

    /** The artist and the album of library_track_add */
    method TrackNames(info: TrackInfo) returns (artistid: nat, albumid: nat)
      requires Keyed(View())
      modifies this`artists, this`albums
      ensures Keyed(View())
      ensures var (db, a) := AddArtist(old(View()), info.artist);
        Positive(db) && artistid == a && (View(), albumid) == AddAlbum(db, info.album)
    {
      artistid, albumid := 0, 0;
      if info.artist.Some? {
        artistid := ArtistRow(info.artist.value);
      }
      if info.album.Some? {
        albumid := AlbumRow(info.album.value);
      }
    }

    /** library_track_add */
    method TrackAdd(info: TrackInfo, directory: int) returns (id: nat)
      requires Keyed(View())
      modifies this
      ensures (View(), id) == AddTrack(old(View()), info, directory)
      ensures id !in old(tracks) && tracks.Keys == old(tracks).Keys + {id} && tracks[id].title == info.title
      ensures NamesArtist(old(artists), artists, info.artist, tracks[id].artistid)
      ensures CountsAlbum(old(albums), albums, info.album, tracks[id].albumid)
      ensures NamesFiles(old(files), files, info, directory, tracks[id].fileid, tracks[id].cuefileid)
      ensures old(Valid()) && directory in old(directories) ==> Valid()
    {
      TrackAdded(View(), info, directory);
      if Valid() && directory in directories {
        AddTrackKeepsInvariant(View(), info, directory);
      }
      var fileid, cuefileid := TrackFiles(info, directory);
      var artistid, albumid := TrackNames(info);
      id := InsertRow(Track(fileid, cuefileid, artistid, albumid, info.title), info.album.Some?);
    }

    /** library_image_add */
    method ImageAdd(file: nat) returns (id: nat)
      modifies this`images
      ensures (View(), id) == AddImage(old(View()), file)
      ensures id !in old(images) && images == old(images)[id := Image(file)]
      ensures old(Valid()) && file in files ==> Valid()
    {
      id := NextRowid(images.Keys);
      images := images[id := Image(file)];
    }

    // ------------------------------------------------------------ deletions

    /** The UPDATE of library_file_clear: if the counts were right, every album now counts its tracks
        outside the file. */
    method RecountWithout(file: nat)
      modifies this`albums
      ensures albums == RecountAlbums(old(View()), file)
      ensures Counted(old(albums), tracks) ==> Counted(albums, KeptTracks(tracks, {file}))
    {
      if Counted(albums, tracks) {
        RecountsKept(View(), file);
      }
      albums := map a | a in albums ::
        if exists t :: t in tracks && tracks[t].fileid == file && tracks[t].albumid == a then
          albums[a].(tracks := |set t | t in tracks && tracks[t].albumid == a && tracks[t].fileid != file|)
        else albums[a];
    }

    /** DELETE FROM tracks WHERE fileid = ? and the same for images */
    method DeleteOfFile(file: nat)
      modifies this`tracks, this`images
      ensures tracks == ClearFile(old(View()), file).tracks && images == ClearFile(old(View()), file).images
    {
      tracks := map t | t in tracks && tracks[t].fileid != file :: tracks[t];
      images := map i | i in images && images[i].fileid != file :: images[i];
    }

    /** library_file_clear: the recount comes first, while the tracks are still there */
    method FileClear(file: nat)
      modifies this`albums, this`tracks, this`images
      ensures View() == ClearFile(old(View()), file)
      ensures old(Valid()) ==> Valid()
    {
      if Valid() {
        ClearFileKeepsInvariant(View(), file);
      }
      ghost var db, after := View(), ClearFile(View(), file);
      RecountWithout(file);
      ClearFileSame(db, View(), file);
      DeleteOfFile(file);
      assert View() == after;
    }

    /** The counts are right. */
    ghost predicate Counting()
      reads this
    {
      Counted(albums, tracks)
    }

    /** library_file_delete: the file's row goes with everything that refers to it. */
    method FileDelete(file: nat)
      requires Counting()
      modifies this`albums, this`tracks, this`images, this`files
      ensures Counting() && View() == Remove(old(View()), {}, {file})
      ensures old(Valid()) ==> Valid()
    {
      DeleteFileRemoves(View(), file);
      RemoveCounts(View(), {}, {file});
      if Valid() {
        DeleteFileKeepsInvariant(View(), file);
      }
      FileClear(file);
      files := files - {file};
    }

    /** library_iterate_files_by_directory with delete_files_cb */
    method DeleteFilesIn(directory: nat)
      requires Counting()
      modifies this`albums, this`tracks, this`images, this`files
      ensures Counting() && View() == Remove(old(View()), {}, FilesIn(old(View()), {directory}))
    {
      ghost var db, done: set<nat> := View(), {};
      RemoveNothing(db);
      while exists f :: f in files && files[f].directory == directory
        invariant Counting() && done <= FilesIn(db, {directory}) && View() == Remove(db, {}, done)
        decreases files.Keys
      {
        var f :| f in files && files[f].directory == directory;
        FileDelete(f);
        RemoveOneMore(db, done, f);
        done := done + {f};
      }
      assert forall f :: f in db.files && f !in done ==> f in files && files[f] == db.files[f];
      assert done == FilesIn(db, {directory});
    }

    /** library_iterate_directories with delete_directories_cb, after the files have gone */
    method DeleteDirectoriesIn(directory: nat, ghost db: Db) returns (ghost done: set<nat>)
      requires Counting() && !OwnAncestor(db.directories, directory)
      requires View() == PartlyDeleted(db, directory, {})
      modifies this
      ensures Counting() && Partial(db, directory, done) && View() == PartlyDeleted(db, directory, done)
      ensures forall c :: c in directories ==> directories[c].parent != directory
      decreases Below(db.directories, directory), 0
    {
      done := {};
      while exists c :: c in directories && directories[c].parent == directory
        invariant Counting() && Partial(db, directory, done) && View() == PartlyDeleted(db, directory, done)
        decreases directories.Keys
      {
        var c :| c in directories && directories[c].parent == directory;
        PartialStep(db, directory, done, c);
        BelowShrinks(db.directories, directories, directory, c);
        ghost var below := Below(directories, c);
        DirectoryDelete(c);
        done := done + below;
      }
    }

    /** library_directory_delete: first the files of the directory, then the directories in it,
        each with everything below it, then its own row.  For any parent ids; what it demands is
        what it takes to end. */
    method DirectoryDelete(directory: nat)
      requires Counting() && !OwnAncestor(directories, directory)
      modifies this
      ensures Counting() && View() == DeleteTree(old(View()), directory)
      ensures old(Valid()) ==> Valid()
      decreases Below(directories, directory), 1
    {
      ghost var db, none: set<nat> := View(), {};
      if Valid() {
        DeleteTreeKeepsInvariant(db, directory);
      }
      DeleteFilesIn(directory);
      assert none + {directory} == {directory};
      ghost var done := DeleteDirectoriesIn(directory, db);
      PartialFinish(db, directory, done);
      DeleteRow(directory);
    }

    method DeleteRow(directory: nat)
      requires Counting()
      modifies this`directories
      ensures Counting() && View() == Remove(old(View()), {directory}, {})
    {
      ghost var none: set<nat> := {};
      ghost var after := Remove(View(), {directory}, none);
      directories := directories - {directory};
      RemoveNothing(old(View()));
      assert View() == after;
    }
  }
}
