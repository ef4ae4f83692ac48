/**
 * The awardee table after loading: one record per scholarship recipient,
 * every cell possibly missing. Only the columns the dashboard reads are kept.
 */
module Awardees {
  import opened Wrappers

  /** One row: `tahun_diterima_lpdp`, `jenis_beasiswa`, `jenjang`,
      `kabupaten/kota`, `jenis_kelamin`, `status_beasiswa`, `tujuan_studi`. */
  datatype Record = Record(
    year: Option<int>,
    scholarship: Option<string>,
    level: Option<string>,
    region: Option<string>,
    gender: Option<string>,
    status: Option<string>,
    destination: Option<string>)

  /** A data frame: rows in their original order. */
  type Table = seq<Record>

  /** The four categorical columns the sidebar can filter on. */
  datatype Category = Scholarship | Level | Region | Gender

  function Text(r: Record, c: Category): Option<string> {
    match c
    case Scholarship => r.scholarship
    case Level => r.level
    case Region => r.region
    case Gender => r.gender
  }

  /** The column `df['tahun_diterima_lpdp']`. */
  function Years(t: Table): (col: seq<Option<int>>)
    ensures |col| == |t|
    ensures forall i :: 0 <= i < |t| ==> col[i] == t[i].year
  {
    if t == [] then [] else [t[0].year] + Years(t[1..])
  }

  /** The column of a categorical attribute, e.g. `df['jenjang']`. */
  function Texts(t: Table, c: Category): (col: seq<Option<string>>)
    ensures |col| == |t|
    ensures forall i :: 0 <= i < |t| ==> col[i] == Text(t[i], c)
  {
    if t == [] then [] else [Text(t[0], c)] + Texts(t[1..], c)
  }
}
