/** Interface records as the inventory returns them, and the per-record
    tests the interfaces report counts: four link-state buckets over the
    layer-1/layer-2 states, and two overlays over the admin/error reason. */
module Interfaces {

  /** A column that may be null in the inventory table. */
  datatype Option<+T> = None | Some(value: T)

  /** One row of the inventory's interface table, reduced to the columns the
      report reads. `l1`, `l2` and `reason` may be null (None). */
  datatype Record = Record(
    hostname: string,
    sn: string,
    siteName: string,
    l1: Option<string>,
    l2: Option<string>,
    reason: Option<string>)

  /** The reasons that mark an interface as administratively down. */
  const AdminDownReasons: seq<string> := ["admin", "admin-down", "parent-admin-down", "disable", "disabled"]

  /** `needle` is found in `s` starting at position `i`. */
  predicate OccursAt(needle: string, s: string, i: int)
  {
    0 <= i <= |s| - |needle| && s[i..i + |needle|] == needle
  }

  /** Python's `needle in s` on two strings: a case-sensitive search for a
      contiguous slice. */
  predicate IsSubstring(needle: string, s: string)
  {
    exists i :: 0 <= i <= |s| - |needle| && OccursAt(needle, s, i)
  }

  // The layer-1/layer-2 tests of the four link-state counters.

  predicate L1UpL2Up(r: Record)
  {
    r.l1 == Some("up") && r.l2 == Some("up")
  }

  predicate L1DownL2Down(r: Record)
  {
    r.l1 == Some("down") && r.l2 == Some("down")
  }

  predicate L1UpL2Down(r: Record)
  {
    r.l1 == Some("up") && r.l2 == Some("down")
  }

  /** `l1 not in ["up", "down"] or l2 not in ["up", "down"]`; a null state is
      in neither list. */
  predicate L1L2Unknown(r: Record)
  {
    r.l1 !in [Some("up"), Some("down")] || r.l2 !in [Some("up"), Some("down")]
  }

  /** The one combination no counter of the report tests: layer 1 down and
      layer 2 up. */
  predicate L1DownL2Up(r: Record)
  {
    r.l1 == Some("down") && r.l2 == Some("up")
  }

  /** `reason in INTERFACE_ADMIN_DOWN_REASON`: an exact, case-sensitive match;
      a null reason equals no listed string. */
  predicate IsAdminDown(r: Record)
  {
    r.reason.Some? && r.reason.value in AdminDownReasons
  }

  /** A non-null reason that contains "err". */
  predicate IsErrDisabled(r: Record)
  {
    r.reason.Some? && IsSubstring("err", r.reason.value)
  }

  /** Every record falls in exactly one of the four named link-state buckets
      or in the unnamed down/up combination. */
  lemma LinkStateCellsPartition(r: Record)
    ensures L1UpL2Up(r) || L1DownL2Down(r) || L1UpL2Down(r) || L1L2Unknown(r) || L1DownL2Up(r)
    ensures !(L1UpL2Up(r) && L1DownL2Down(r)) && !(L1UpL2Up(r) && L1UpL2Down(r))
    ensures !(L1UpL2Up(r) && L1L2Unknown(r)) && !(L1UpL2Up(r) && L1DownL2Up(r))
    ensures !(L1DownL2Down(r) && L1UpL2Down(r)) && !(L1DownL2Down(r) && L1L2Unknown(r))
    ensures !(L1DownL2Down(r) && L1DownL2Up(r)) && !(L1UpL2Down(r) && L1L2Unknown(r))
    ensures !(L1UpL2Down(r) && L1DownL2Up(r)) && !(L1L2Unknown(r) && L1DownL2Up(r))
  {
  }

  /** Every occurrence of `needle` in `s` carries its characters into `s`. */
  lemma SubstringMultiset(needle: string, s: string)
    requires IsSubstring(needle, s)
    ensures multiset(needle) <= multiset(s)
  {
    var i :| 0 <= i <= |s| - |needle| && OccursAt(needle, s, i);
    assert s == s[..i] + s[i..i + |needle|] + s[i + |needle|..];
  }

  /** A string with fewer than two 'r' characters cannot contain "err". */
  lemma NoErrWithoutTwoRs(s: string)
    requires multiset(s)['r'] < 2
    ensures !IsSubstring("err", s)
  {
    if IsSubstring("err", s) {
      SubstringMultiset("err", s);
    }
  }

  lemma AdminDownReasonsListed(s: string)
    requires s in AdminDownReasons
    ensures s == "admin" || s == "admin-down" || s == "parent-admin-down" || s == "disable" || s == "disabled"
  {
  }

  lemma AdminHasNoR() ensures multiset("admin")['r'] == 0 {}
  lemma AdminDownHasNoR() ensures multiset("admin-down")['r'] == 0 {}
  lemma ParentAdminDownHasOneR() ensures multiset("parent-admin-down")['r'] == 1 {}
  lemma DisableHasNoR() ensures multiset("disable")['r'] == 0 {}
  lemma DisabledHasNoR() ensures multiset("disabled")['r'] == 0 {}

  /** No admin-down reason contains "err". */
  lemma AdminDownReasonHasNoErr(s: string)
    requires s in AdminDownReasons
    ensures !IsSubstring("err", s)
  {
    AdminDownReasonsListed(s);
    if s == "parent-admin-down" {
      ParentAdminDownHasOneR();
    } else if s == "admin" {
      AdminHasNoR();
    } else if s == "admin-down" {
      AdminDownHasNoR();
    } else if s == "disable" {
      DisableHasNoR();
    } else {
      DisabledHasNoR();
    }
    NoErrWithoutTwoRs(s);
  }

  /** The two reason overlays never both count one record, and a null reason
      counts toward neither. */
  lemma ReasonOverlaysDisjoint(r: Record)
    ensures !(IsAdminDown(r) && IsErrDisabled(r))
    ensures r.reason == None ==> !IsAdminDown(r) && !IsErrDisabled(r)
  {
    if IsAdminDown(r) {
      AdminDownReasonHasNoErr(r.reason.value);
    }
  }

  /** Examples of the two reason tests: "disabled" is admin-down whatever the
      link state, "err-disabled-foo" is err-disabled, and the match on the
      admin-down list is case-sensitive. */
  lemma ReasonExamples(l1: Option<string>, l2: Option<string>)
    ensures IsAdminDown(Record("A", "", "", l1, l2, Some("disabled")))
    ensures IsErrDisabled(Record("A", "", "", l1, l2, Some("err-disabled-foo")))
    ensures !IsAdminDown(Record("A", "", "", l1, l2, Some("Admin")))
  {
    assert AdminDownReasons[4] == "disabled";
    assert OccursAt("err", "err-disabled-foo", 0);
    if "Admin" in AdminDownReasons {
      AdminDownReasonsListed("Admin");
    }
  }
}
