/**
 The `local,remote` pair specification of the command line, split as
 `sync_pair.split(",")` and unpacked into exactly two names
 (google-drive-sync.py:166).
 */
module PairSpec {
  import opened Wrappers

  /** Number of occurrences of c in s. */
  function Count(s: string, c: char): nat {
    if |s| == 0 then 0 else (if s[0] == c then 1 else 0) + Count(s[1..], c)
  }

  /** Python's `s.split(sep)` for a one-character separator: the text
      between consecutive separators, including empty pieces. */
  function Split(s: string, sep: char): (parts: seq<string>)
    ensures |parts| == Count(s, sep) + 1
    ensures forall i :: 0 <= i < |parts| ==> sep !in parts[i]
  {
    if |s| == 0 then [""]
    else
      var rest := Split(s[1..], sep);
      if s[0] == sep then [""] + rest
      else [[s[0]] + rest[0]] + rest[1..]
  }

  /** Python's `sep.join(parts)`. */
  function Join(parts: seq<string>, sep: char): string
    requires |parts| >= 1
  {
    if |parts| == 1 then parts[0] else parts[0] + [sep] + Join(parts[1..], sep)
  }

  /** Joining the pieces of a split gives the text back. */
  lemma {:induction false} JoinSplit(s: string, sep: char)
    ensures Join(Split(s, sep), sep) == s
  {
    if |s| > 0 {
      var rest := Split(s[1..], sep);
      JoinSplit(s[1..], sep);
      if s[0] == sep {
        assert ([""] + rest)[1..] == rest;
        assert s == [s[0]] + s[1..];
      } else {
        var parts := [[s[0]] + rest[0]] + rest[1..];
        if |rest| == 1 {
          assert s == [s[0]] + rest[0];
        } else {
          assert parts[1..] == rest[1..];
          assert Join(rest, sep) == rest[0] + [sep] + Join(rest[1..], sep);
          assert s == [s[0]] + s[1..];
        }
      }
    }
  }

  /** Splitting a join of separator-free pieces gives the pieces back. */
  lemma {:induction false} SplitJoin(parts: seq<string>, sep: char)
    requires |parts| >= 1
    requires forall i :: 0 <= i < |parts| ==> sep !in parts[i]
    ensures Split(Join(parts, sep), sep) == parts
  {
    var s := Join(parts, sep);
    var p := Split(s, sep);
    JoinSplit(s, sep);
    if |parts| == 1 {
      assert |p| == 1 by {
        assert Count(s, sep) == 0 by { CountAbsent(s, sep); }
      }
    } else {
      SplitJoin(parts[1..], sep);
      SplitAround(parts[0], Join(parts[1..], sep), sep);
      assert [parts[0]] + parts[1..] == parts;
    }
  }

  lemma {:induction false} CountAbsent(s: string, c: char)
    requires c !in s
    ensures Count(s, c) == 0
  {
    if |s| > 0 {
      assert c !in s[1..];
      CountAbsent(s[1..], c);
    }
  }

  /** A separator-free head and a separator split off as the first piece. */
  lemma {:induction false} SplitAround(head: string, tail: string, sep: char)
    requires sep !in head
    ensures Split(head + [sep] + tail, sep) == [head] + Split(tail, sep)
  {
    var s := head + [sep] + tail;
    if |head| == 0 {
      assert s[1..] == tail;
    } else {
      assert s[1..] == head[1..] + [sep] + tail;
      SplitAround(head[1..], tail, sep);
      assert [head[0]] + head[1..] == head;
    }
  }

  datatype SplitError =
    | NotEnoughValues  // no comma: one piece to unpack into two names
    | TooManyValues    // two or more commas

  /** `local_path, remote_id = sync_pair.split(",")`. */
  function SplitPair(spec: string): (r: Result<(string, string), SplitError>)
    ensures r.Success? <==> Count(spec, ',') == 1
    ensures Count(spec, ',') == 0 ==> r == Failure(NotEnoughValues)
    ensures Count(spec, ',') >= 2 ==> r == Failure(TooManyValues)
    ensures r.Success? ==> spec == r.value.0 + [','] + r.value.1
    ensures r.Success? ==> ',' !in r.value.0 && ',' !in r.value.1
  {
    var parts := Split(spec, ',');
    if |parts| < 2 then Failure(NotEnoughValues)
    else if |parts| > 2 then Failure(TooManyValues)
    else
      JoinSplit(spec, ',');
      assert parts[1..] == [parts[1]];
      Success((parts[0], parts[1]))
  }

  /** Two comma-free names joined by a comma are split back into those
      names. */
  lemma SplitPairOfJoin(local: string, remote: string)
    requires ',' !in local && ',' !in remote
    ensures SplitPair(local + [','] + remote) == Success((local, remote))
  {
    SplitJoin([local, remote], ',');
    assert Join([local, remote], ',') == local + [','] + remote by {
      assert [local, remote][1..] == [remote];
    }
  }
}
