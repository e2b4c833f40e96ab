/**
 * The storage a pipeline works on: the server's configured storage root, or
 * the client's `downloads` directory.  Only the paths the pipelines touch
 * are distinguished: `<root>/<name>` for a committed file and
 * `<root>/<id>/data.bin` for a staged one; `<root>/<id>/metadata.json` is
 * the staging directory's sidecar, held as the metadata it records.
 */
module FileStore {
  import opened Frames

  datatype Path = Final(name: string) | Staged(id: string)

  /** A snapshot of the storage: files, metadata sidecars and staging directories. */
  datatype Store = Store(files: map<Path, seq<byte>>, sidecars: map<string, FileMetadata>, dirs: set<string>)

  /** `id` names nothing yet: the freshness `Path.GetRandomFileName` is relied on for. */
  predicate Fresh(s: Store, id: string)
  {
    id !in s.dirs && Staged(id) !in s.files && id !in s.sidecars
  }

  class FileSystem {
    var files: map<Path, seq<byte>>
    var sidecars: map<string, FileMetadata>
    var dirs: set<string>

    function State(): Store
      reads this
    {
      Store(files, sidecars, dirs)
    }

    constructor (s: Store)
      ensures State() == s
    {
      files, sidecars, dirs := s.files, s.sidecars, s.dirs;
    }

    /** `Directory.CreateDirectory(<root>/<id>)`. */
    method CreateDirectory(id: string)
      modifies this
      ensures State() == old(State()).(dirs := old(dirs) + {id})
    {
      dirs := dirs + {id};
    }

    /** `File.Create`: creates the file, or truncates an existing one. */
    method Create(p: Path)
      modifies this
      ensures State() == old(State()).(files := old(files)[p := []])
    {
      files := files[p := []];
    }

    /** `WriteAsync` on an open file stream: appends at the end. */
    method Append(p: Path, bytes: seq<byte>)
      requires p in files
      modifies this
      ensures State() == old(State()).(files := old(files)[p := old(files)[p] + bytes])
    {
      files := files[p := files[p] + bytes];
    }

    /** `File.WriteAllTextAsync(<root>/<id>/metadata.json, …)`: overwrites the sidecar. */
    method WriteSidecar(id: string, m: FileMetadata)
      modifies this
      ensures State() == old(State()).(sidecars := old(sidecars)[id := m])
    {
      sidecars := sidecars[id := m];
    }

    /** `File.Move`: fails, changing nothing, when the destination already exists. */
    method Move(src: Path, dst: Path) returns (ok: bool)
      requires src in files && src != dst
      modifies this
      ensures ok <==> dst !in old(files)
      ensures ok ==> State() == old(State()).(files := (old(files) - {src})[dst := old(files)[src]])
      ensures !ok ==> State() == old(State())
    {
      ok := dst !in files;
      if ok {
        files := (files - {src})[dst := files[src]];
      }
    }

    /** `Directory.Delete(<root>/<id>, true)`: removes the staging directory and all it holds. */
    method DeleteDirectory(id: string)
      modifies this
      ensures State() == Store(old(files) - {Staged(id)}, old(sidecars) - {id}, old(dirs) - {id})
    {
      files := files - {Staged(id)};
      sidecars := sidecars - {id};
      dirs := dirs - {id};
    }
  }

  /**
   * `File.OpenRead`: a read position over fixed contents.  A read may return
   * fewer bytes than the buffer holds, but returns none only at the end.
   */
  class ReadStream {
    const contents: seq<byte>
    var position: nat

    ghost predicate Valid()
      reads this
    {
      position <= |contents|
    }

    function Remaining(): (r: seq<byte>)
      reads this
      requires Valid()
      ensures contents == contents[..position] + r
    {
      contents[position..]
    }

    constructor (contents: seq<byte>)
      ensures Valid() && this.contents == contents && position == 0
      ensures Remaining() == contents
    {
      this.contents := contents;
      position := 0;
    }

    /** `ReadAsync(buffer)`: fills a prefix of `buffer` with the next bytes and returns its length. */
    method Read(buffer: array<byte>) returns (count: nat)
      requires Valid()
      modifies this, buffer
      ensures Valid()
      ensures position == old(position) + count
      ensures count <= buffer.Length
      ensures count == 0 <==> old(position) == |contents| || buffer.Length == 0
      ensures buffer[..count] == contents[old(position)..position]
    {
      var available := if buffer.Length < |contents| - position then buffer.Length else |contents| - position;
      if available == 0 {
        count := 0;
      } else {
        count :| 1 <= count <= available;
      }
      forall i | 0 <= i < count {
        buffer[i] := contents[position + i];
      }
      position := position + count;
    }
  }
}
