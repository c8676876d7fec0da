/**
 * The records stored in the tree: `Info` (IPLocate.java), the four location
 * strings, and `IPEntry` (SearchTree.java), an address range carrying an `Info`.
 */
module Entries {
  import opened Addresses

  /** `Info`: country, province, ISP and department of a range. */
  datatype Info = Info(country: string, province: string, isp: string, department: string)

  /** `Info()`: the record used when nothing is known, every field "--". */
  function DefaultInfo(): (i: Info)
    ensures i.country == "--" && i.province == "--" && i.isp == "--" && i.department == "--"
  {
    Info("--", "--", "--", "--")
  }

  /** `IPEntry`: the range `[begin, end]` with its location payload. */
  datatype Entry = Entry(begin: Addr, end: Addr, info: Info)

  /** The number the tree is ordered by: the begin address alone. */
  function Key(e: Entry): nat
  {
    Value(e.begin)
  }

  /**
   * `IPEntry.compareTo`: compares begin addresses only, so the end address and
   * the payload never influence the order of entries.
   */
  function CompareTo(e: Entry, p: Entry): (r: int)
    ensures r == 0 <==> e.begin == p.begin
    ensures r < 0 <==> Key(e) < Key(p)
    ensures r > 0 <==> Key(e) > Key(p)
  {
    Compare(e.begin, p.begin)
  }

  /** `IPEntry.contains`: whether `ip` lies in `[begin, end]`, bounds included. */
  function Contains(e: Entry, ip: Addr): (b: bool)
    ensures b <==> Value(e.begin) <= Value(ip) <= Value(e.end)
  {
    Compare(ip, e.begin) >= 0 && Compare(ip, e.end) <= 0
  }
}
