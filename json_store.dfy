/** The older JSON-file metadata store (`Storage`): an in-memory map that is
    written back to its file after every change. The file is modelled by
    the last map written to it and a flag saying whether writing works. */
module JsonStore {
  import opened WgTypes

  /** What reading the file at start-up gave. */
  datatype LoadOutcome = Loaded(content: map<string, PeerMetadata>) | Missing | Unreadable

  class Storage {
    var data: map<string, PeerMetadata>
    var file: map<string, PeerMetadata>
    var writable: bool

    constructor Empty(onDisk: map<string, PeerMetadata>, canWrite: bool)
      ensures data == map[] && file == onDisk && writable == canWrite
    {
      data := map[];
      file := onDisk;
      writable := canWrite;
    }

    /** `NewStorage`: the loaded map, an empty map when the file does not
        exist, and no store at all on any other load error. */
    static method NewStorage(load: LoadOutcome, canWrite: bool) returns (s: Storage?)
      ensures load.Unreadable? <==> s == null
      ensures s != null ==> fresh(s) && s.writable == canWrite
      ensures s != null && load.Loaded? ==> s.data == load.content && s.file == load.content
      ensures s != null && load.Missing? ==> s.data == map[] && s.file == map[]
    {
      if load.Unreadable? {
        return null;
      }
      var content := if load.Loaded? then load.content else map[];
      s := new Storage.Empty(content, canWrite);
      s.data := content;
    }

    /** The record under `publicKey`, and whether there is one. */
    method GetMetadata(publicKey: string) returns (m: PeerMetadata, ok: bool)
      ensures ok <==> publicKey in data
      ensures ok ==> m == data[publicKey]
      ensures !ok ==> m == EmptyMetadata
    {
      if publicKey in data {
        return data[publicKey], true;
      }
      return EmptyMetadata, false;
    }

    /** Writes the whole map to the file. */
    method Save() returns (ok: bool)
      modifies this`file
      ensures ok == writable
      ensures file == if ok then data else old(file)
    {
      if writable {
        file := data;
      }
      return writable;
    }

    /** Stores `m` under `publicKey`, replacing any previous record, then
        saves; the in-memory change stays even when saving fails. */
    method SetMetadata(publicKey: string, m: PeerMetadata) returns (ok: bool)
      modifies this`data, this`file
      ensures data == old(data)[publicKey := m]
      ensures ok == writable && file == if ok then data else old(file)
    {
      data := data[publicKey := m];
      ok := Save();
    }

    /** Removes `publicKey`, leaving every other key alone, then saves. */
    method DeleteMetadata(publicKey: string) returns (ok: bool)
      modifies this`data, this`file
      ensures data == old(data) - {publicKey}
      ensures forall k :: k in old(data) && k != publicKey ==> k in data && data[k] == old(data)[k]
      ensures ok == writable && file == if ok then data else old(file)
    {
      data := data - {publicKey};
      ok := Save();
    }
  }
}
