/** Deduplication of vote records by id and by ip. */
module Dedup {
  import opened Records

  function Ids(rs: seq<Record>): set<string> {
    set r | r in rs :: r.id
  }

  function Ips(rs: seq<Record>): set<string> {
    set r | r in rs :: r.ip
  }

  /** No two records share an id, and no two share an ip. */
  predicate UniqueKeys(rs: seq<Record>) {
    forall i, j :: 0 <= i < j < |rs| ==> rs[i].id != rs[j].id && rs[i].ip != rs[j].ip
  }

  /** A record is kept when neither its id nor its ip has been seen. */
  predicate Fresh(r: Record, seenIds: set<string>, seenIps: set<string>) {
    r.id !in seenIds && r.ip !in seenIps
  }

  /** The scan over the remaining lines, given the ids and ips already seen.
      A `None` line is one the line pattern rejects; it is skipped. */
  function CleanFrom(lines: seq<Option<Record>>, seenIds: set<string>, seenIps: set<string>): (kept: seq<Record>)
    ensures forall r :: r in kept ==> Fresh(r, seenIds, seenIps) && Some(r) in lines
    ensures UniqueKeys(kept)
    ensures |kept| <= |lines|
  {
    if |lines| == 0 then []
    else match lines[0]
      case None => CleanFrom(lines[1..], seenIds, seenIps)
      case Some(r) =>
        if Fresh(r, seenIds, seenIps) then
          var rest := CleanFrom(lines[1..], seenIds + {r.id}, seenIps + {r.ip});
          assert forall j :: 0 < j <= |rest| ==> ([r] + rest)[j] == rest[j - 1] && rest[j - 1] in rest;
          [r] + rest
        else CleanFrom(lines[1..], seenIds, seenIps)
  }

  /** `clean_duplicates` without the file handling: both seen sets start empty. */
  function CleanDuplicates(lines: seq<Option<Record>>): seq<Record> {
    CleanFrom(lines, {}, {})
  }

  /** What re-reading the cleaned file yields: every kept line parses again. */
  function Lift(rs: seq<Record>): seq<Option<Record>> {
    seq(|rs|, i requires 0 <= i < |rs| => Some(rs[i]))
  }

  /** The record of line `l` when it parses and neither its id nor its ip
      has been seen; nothing otherwise. */
  function Admit(l: Option<Record>, seenIds: set<string>, seenIps: set<string>): seq<Record> {
    if l.Some? && Fresh(l.value, seenIds, seenIps) then [l.value] else []
  }

  /** The keys of a record list with one record in front. */
  lemma KeysCons(r: Record, rest: seq<Record>)
    ensures Ids([r] + rest) == {r.id} + Ids(rest)
    ensures Ips([r] + rest) == {r.ip} + Ips(rest)
  {
    assert forall x :: x in [r] + rest <==> x == r || x in rest;
  }

  /** A single line is kept exactly when `Admit` lets it through. */
  lemma CleanFromOne(l: Option<Record>, seenIds: set<string>, seenIps: set<string>)
    ensures CleanFrom([l], seenIds, seenIps) == Admit(l, seenIds, seenIps)
  {
    if l.Some? {
      assert CleanFrom([l][1..], seenIds + {l.value.id}, seenIps + {l.value.ip}) == [];
    }
  }

  /** The generalised step behind `CleanAppend`: the seen sets after a prefix are
      the initial sets plus the keys of what the prefix kept. */
  lemma {:induction false} CleanFromAppend(lines: seq<Option<Record>>, l: Option<Record>, seenIds: set<string>, seenIps: set<string>)
    ensures var k := CleanFrom(lines, seenIds, seenIps);
      CleanFrom(lines + [l], seenIds, seenIps) == k + Admit(l, seenIds + Ids(k), seenIps + Ips(k))
    decreases |lines|, 1
  {
    if |lines| == 0 {
      assert lines + [l] == [l];
      CleanFromOne(l, seenIds, seenIps);
    } else if lines[0].Some? && Fresh(lines[0].value, seenIds, seenIps) {
      CleanFromAppendKept(lines, l, seenIds, seenIps);
    } else {
      assert (lines + [l])[1..] == lines[1..] + [l];
      CleanFromAppend(lines[1..], l, seenIds, seenIps);
    }
  }

  /** `CleanFromAppend` when the first line is kept. */
  lemma CleanFromAppendKept(lines: seq<Option<Record>>, l: Option<Record>, seenIds: set<string>, seenIps: set<string>)
    requires |lines| > 0 && lines[0].Some? && Fresh(lines[0].value, seenIds, seenIps)
    ensures var k := CleanFrom(lines, seenIds, seenIps);
      CleanFrom(lines + [l], seenIds, seenIps) == k + Admit(l, seenIds + Ids(k), seenIps + Ips(k))
    decreases |lines|, 0
  {
    var r := lines[0].value;
    var ids', ips' := seenIds + {r.id}, seenIps + {r.ip};
    var rest := CleanFrom(lines[1..], ids', ips');
    assert (lines + [l])[1..] == lines[1..] + [l];
    CleanFromAppend(lines[1..], l, ids', ips');
    KeysCons(r, rest);
    assert ids' + Ids(rest) == seenIds + Ids([r] + rest);
    assert ips' + Ips(rest) == seenIps + Ips([r] + rest);
  }

  /** Appending one line to the input appends that line's record to the output
      exactly when the line parses and its id and ip are both new among the
      records kept so far; nothing kept earlier changes. Together with
      `CleanDuplicates([]) == []` this determines the output completely. */
  lemma CleanAppend(lines: seq<Option<Record>>, l: Option<Record>)
    ensures var k := CleanDuplicates(lines);
      CleanDuplicates(lines + [l]) == k + Admit(l, Ids(k), Ips(k))
  {
    CleanFromAppend(lines, l, {}, {});
    var k := CleanDuplicates(lines);
    assert {} + Ids(k) == Ids(k);
    assert {} + Ips(k) == Ips(k);
  }

  /** Input already free of clashes, whose keys are also unseen, passes unchanged. */
  lemma {:induction false} CleanFromUnique(rs: seq<Record>, seenIds: set<string>, seenIps: set<string>)
    requires UniqueKeys(rs)
    requires forall r :: r in rs ==> Fresh(r, seenIds, seenIps)
    ensures CleanFrom(Lift(rs), seenIds, seenIps) == rs
    decreases |rs|
  {
    if |rs| > 0 {
      var r := rs[0];
      assert Lift(rs)[0] == Some(r);
      assert Lift(rs)[1..] == Lift(rs[1..]);
      forall x | x in rs[1..]
        ensures Fresh(x, seenIds + {r.id}, seenIps + {r.ip})
      {
        var j :| 0 <= j < |rs[1..]| && rs[1..][j] == x;
        assert rs[j + 1] == x && x in rs;
      }
      CleanFromUnique(rs[1..], seenIds + {r.id}, seenIps + {r.ip});
      assert rs == [r] + rs[1..];
    }
  }

  /** Deduplicating the cleaned records a second time changes nothing. */
  lemma CleanIdempotent(lines: seq<Option<Record>>)
    ensures CleanDuplicates(Lift(CleanDuplicates(lines))) == CleanDuplicates(lines)
  {
    CleanFromUnique(CleanDuplicates(lines), {}, {});
  }

  /** Two votes from the same ip: only the first survives. */
  lemma SameIpScenario()
    ensures
      var first := Record("1", "t1", "1.1.1.1", "John Smith");
      var second := Record("2", "t2", "1.1.1.1", "Jon Smith");
      CleanDuplicates([Some(first), Some(second)]) == [first]
  {
    var first := Record("1", "t1", "1.1.1.1", "John Smith");
    var second := Record("2", "t2", "1.1.1.1", "Jon Smith");
    var lines := [Some(first), Some(second)];
    assert lines[1..] == [Some(second)];
    assert lines[1..][1..] == [];
  }
}
