/** The PostgreSQL tables of Host (vps/migrations/000001_initial.up.sql) as values.
    Row texts that no query looks at are left out; times are integers at the stored precision.
  */
module HostTables {
  import opened Bytes

  datatype Master = Master(tokenHash: Option<string>, enrolled: bool, disabled: bool, username: Option<string>)

  datatype Slave = Slave(master: string, pot: nat, nodeLabel: string, transferHash: string, disabled: bool)

  datatype Reading = Reading(
    slave: string, ph: real, ec: real, light: real, moisture: real, calibration: string, firmware: string)

  datatype Batch = Batch(messageId: string, measuredAt: int, firmware: string, readings: seq<Reading>)

  /** The primary key of telemetry_batches. */
  datatype BatchKey = BatchKey(master: string, messageId: string)

  datatype BatchRow = BatchRow(measuredAt: int, firmware: string)

  /** The primary key of measurements. */
  datatype MeasureKey = MeasureKey(slave: string, measuredAt: int)

  datatype Tables = Tables(
    masters: map<string, Master>,
    pots: map<nat, string>,
    slaves: map<string, Slave>,
    batches: map<BatchKey, BatchRow>,
    measurements: map<MeasureKey, Reading>)

  /** The CHECK clauses of measurements. */
  predicate InRange(r: Reading) {
    0.0 <= r.ph <= 14.0 && r.ec >= 0.0 && r.light >= 0.0 && 0.0 <= r.moisture <= 100.0
  }

  function Key(b: Batch, k: nat): MeasureKey
    requires k < |b.readings|
  {
    MeasureKey(b.readings[k].slave, b.measuredAt)
  }

  /** The row that INSERT .. SELECT finds in slave_nodes. */
  predicate Bound(slaves: map<string, Slave>, m: string, slave: string) {
    slave in slaves && slaves[slave].master == m && !slaves[slave].disabled
  }
}
