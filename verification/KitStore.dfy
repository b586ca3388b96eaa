/** The kit operations, rewriting the player's record in place. */
module KitStore {
  import opened Common
  import opened Kits

  /** The player table's Kits column, rewritten record by record. */
  class Store {
    const cfg: Config
    var rows: Rows

    constructor (cfg: Config)
      ensures this.cfg == cfg && rows == map[]
    {
      this.cfg, rows := cfg, map[];
    }

    /** SaveConfig, which reports what the database reports. */
    method SaveConfig(steamId: nat, record: Record, stored: bool) returns (ok: bool)
      modifies this
      ensures ok == stored && rows == Save(old(rows), steamId, record, stored)
    {
      if stored && steamId in rows {
        rows := rows[steamId := record];
      }
      return stored;
    }

    method ChangeKitAmount(kit: string, amount: int, steamId: nat, stored: bool) returns (ok: bool)
      modifies this
      ensures (ok, rows) == Kits.ChangeKitAmount(cfg, old(rows), kit, amount, steamId, stored)
    {
      if amount == 0 {
        return true;
      }
      var newAmount: int;
      var record := RecordOf(rows, steamId);
      if kit !in record {
        if kit !in cfg.defaults {
          return false;
        }
        newAmount := cfg.defaults[kit] + amount;
      } else {
        newAmount := record[kit] + amount;
      }
      record := record[kit := if newAmount >= 0 then newAmount else 0];
      ok := SaveConfig(steamId, record, stored);
    }

    method RedeemKit(steamId: nat, kit: string, eligible: bool, stored: bool) returns (given: bool)
      modifies this
      ensures (given, rows) == Kits.RedeemKit(cfg, old(rows), steamId, kit, eligible, stored)
    {
      given := false;
      if steamId in rows && eligible && kit in cfg.defaults {
        var amount := GetKitAmount(cfg, rows, steamId, kit);
        if amount > 0 {
          given := ChangeKitAmount(kit, -1, steamId, stored);
        }
      }
    }

    method InitKitData(steamId: nat, stored: bool)
      modifies this
      ensures rows == Kits.InitKitData(cfg, old(rows), steamId, stored)
    {
      var record := RecordOf(rows, steamId);
      for i := 0 to |cfg.names|
        invariant record == Filled(cfg, RecordOf(rows, steamId), cfg.names[..i])
        invariant rows == old(rows)
      {
        assert cfg.names[..i + 1][..i] == cfg.names[..i];
        var kit := cfg.names[i];
        if kit in record {
          record := record[kit := AtLeastZero(record[kit])];
        } else if kit in cfg.defaults {
          record := record[kit := AtLeastZero(cfg.defaults[kit])];
        }
      }
      assert cfg.names[..|cfg.names|] == cfg.names;
      var _ := SaveConfig(steamId, record, stored);
    }
  }
}
