/** The SQLite metadata store (`SQLiteStorage`): a `peers` table keyed by
    public key and a one-row `settings` table. The tables are modelled as a
    map and an optional row; `healthy` stands for whether the database
    answers, and when it does not every statement fails. */
module SqliteStore {
  import opened Wrappers
  import opened WgTypes

  const DefaultDNS := "1.1.1.1, 8.8.8.8"
  const DefaultMTU := 1420
  const DefaultKeepalive := 25

  /** The row the schema set-up inserts when `settings` has none. */
  const DefaultSettingsRow := GlobalSettings("", DefaultDNS, DefaultMTU, DefaultKeepalive, "")

  /** What `GetSettings` answers when the row cannot be read: DNS and MTU
      defaults, every other field zero. */
  const FallbackSettings := GlobalSettings("", DefaultDNS, DefaultMTU, 0, "")

  class SQLiteStorage {
    var peers: map<string, PeerMetadata>
    var settingsRow: Option<GlobalSettings>
    var healthy: bool

    /** `public_key` is the primary key: each row sits under its own key. */
    ghost predicate Valid()
      reads this
    {
      forall k :: k in peers ==> peers[k].publicKey == k
    }

    /** A handle on an existing database file with the given content. */
    constructor Open(existing: map<string, PeerMetadata>, row: Option<GlobalSettings>, answers: bool)
      requires forall k :: k in existing ==> existing[k].publicKey == k
      ensures Valid() && peers == existing && settingsRow == row && healthy == answers
    {
      peers := existing;
      settingsRow := row;
      healthy := answers;
    }

    /** `initSchema`: inserts the default settings row only when row 1 is
        absent; fails, changing nothing, when the database does not answer. */
    method InitSchema() returns (ok: bool)
      requires Valid()
      modifies this`settingsRow
      ensures Valid() && ok == healthy
      ensures settingsRow == if ok && old(settingsRow).None? then Some(DefaultSettingsRow) else old(settingsRow)
    {
      if !healthy {
        return false;
      }
      if settingsRow.None? {
        settingsRow := Some(DefaultSettingsRow);
      }
      return true;
    }

    /** The stored record of `publicKey`, or the zero record and `false`
        when there is none or the query fails. */
    method GetMetadata(publicKey: string) returns (m: PeerMetadata, ok: bool)
      requires Valid()
      ensures ok <==> healthy && publicKey in peers
      ensures ok ==> m == peers[publicKey] && m.publicKey == publicKey
      ensures !ok ==> m == EmptyMetadata
    {
      if healthy && publicKey in peers {
        return peers[publicKey], true;
      }
      return EmptyMetadata, false;
    }

    /** Upsert keyed by the record's own public key (the `publicKey`
        argument is not used); every column is replaced. */
    method SetMetadata(publicKey: string, m: PeerMetadata) returns (ok: bool)
      requires Valid()
      modifies this`peers
      ensures Valid() && ok == healthy
      ensures peers == if ok then old(peers)[m.publicKey := m] else old(peers)
    {
      if !healthy {
        return false;
      }
      peers := peers[m.publicKey := m];
      return true;
    }

    /** Deletes the row of `publicKey`; deleting an absent key succeeds. */
    method DeleteMetadata(publicKey: string) returns (ok: bool)
      requires Valid()
      modifies this`peers
      ensures Valid() && ok == healthy
      ensures peers == if ok then old(peers) - {publicKey} else old(peers)
    {
      if !healthy {
        return false;
      }
      peers := peers - {publicKey};
      return true;
    }

    /** The settings as the service sees them now. */
    function CurrentSettings(): GlobalSettings
      reads this`healthy, this`settingsRow
    {
      if healthy && settingsRow.Some? then settingsRow.value else FallbackSettings
    }

    /** The settings row, or the fallback when it cannot be read. */
    method GetSettings() returns (s: GlobalSettings)
      ensures healthy && settingsRow.Some? ==> s == settingsRow.value
      ensures !healthy || settingsRow.None? ==> s == FallbackSettings
      ensures s == CurrentSettings()
    {
      if healthy && settingsRow.Some? {
        return settingsRow.value;
      }
      return FallbackSettings;
    }

    /** Overwrites all five fields of row 1; an `UPDATE` that matches no row
        changes nothing and still succeeds. */
    method UpdateSettings(s: GlobalSettings) returns (ok: bool)
      requires Valid()
      modifies this`settingsRow
      ensures Valid() && ok == healthy
      ensures settingsRow == if ok && old(settingsRow).Some? then Some(s) else old(settingsRow)
    {
      if !healthy {
        return false;
      }
      if settingsRow.Some? {
        settingsRow := Some(s);
      }
      return true;
    }

    /** Reads every row, in whatever order the database yields them, into a
        map keyed by each row's public key. */
    method GetAllPeers() returns (r: Option<map<string, PeerMetadata>>)
      requires Valid()
      ensures r.Some? <==> healthy
      ensures r.Some? ==> r.value == peers
    {
      if !healthy {
        return None;
      }
      var result: map<string, PeerMetadata> := map[];
      var remaining := peers.Keys;
      while remaining != {}
        invariant remaining <= peers.Keys
        invariant result.Keys == peers.Keys - remaining
        invariant forall k :: k in result ==> result[k] == peers[k]
        decreases |remaining|
      {
        var k :| k in remaining;
        var row := peers[k];
        result := result[row.publicKey := row];
        remaining := remaining - {k};
      }
      return Some(result);
    }
  }
}
