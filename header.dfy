/** The frame header text `"/".join(str(h) for h in (host, port, datatype))`
    and the receiver's `headerpack.split("/")`. */
module Header {
  import Seqs
  import Decimal

  const Separator: char := '/'

  /** The header a sender writes: host, port and data type joined by '/'. */
  function HeaderText(host: string, port: int, dataType: string): string {
    host + [Separator] + Decimal.IntText(port) + [Separator] + dataType
  }

  /** `s.split(sep)`: the pieces between separators, empty ones included;
      there is always at least one piece. */
  function Split(s: string, sep: char): (pieces: seq<string>)
    ensures |pieces| >= 1
    decreases |s|
  {
    if s == [] then [[]]
    else
      var rest := Split(s[1..], sep);
      if s[0] == sep then [[]] + rest else [[s[0]] + rest[0]] + rest[1..]
  }

  /** `sep.join(pieces)` for a non-empty list of pieces. */
  function Join(pieces: seq<string>, sep: char): string
    requires |pieces| >= 1
    decreases |pieces|
  {
    if |pieces| == 1 then pieces[0] else pieces[0] + [sep] + Join(pieces[1..], sep)
  }

  /** The header is the '/'-join of its three fields, so what `JoinSplit` and
      `SplitHeaderText` say about joins holds for it. */
  lemma HeaderTextIsJoin(host: string, port: int, dataType: string)
    ensures HeaderText(host, port, dataType) == Join([host, Decimal.IntText(port), dataType], Separator)
  {
    var fields := [host, Decimal.IntText(port), dataType];
    assert fields[1..] == [Decimal.IntText(port), dataType] && fields[1..][1..] == [dataType];
    assert Join(fields[1..], Separator) == Decimal.IntText(port) + [Separator] + dataType;
    assert Join(fields, Separator) == host + [Separator] + (Decimal.IntText(port) + [Separator] + dataType);
  }

  /** How many times `c` occurs in `s`. */
  function Occurrences(s: string, c: char): nat
    decreases |s|
  {
    if s == [] then 0 else (if s[0] == c then 1 else 0) + Occurrences(s[1..], c)
  }

  /** Splitting yields one piece more than there are separators, so every '/'
      inside a field adds a piece. */
  lemma {:induction false} SplitCount(s: string, sep: char)
    ensures |Split(s, sep)| == Occurrences(s, sep) + 1
    decreases |s|
  {
    if s != [] {
      SplitCount(s[1..], sep);
    }
  }

  /** Joining the pieces gives back the text that was split. */
  lemma {:induction false} JoinSplit(s: string, sep: char)
    ensures Join(Split(s, sep), sep) == s
    decreases |s|
  {
    if s != [] {
      var rest := Split(s[1..], sep);
      JoinSplit(s[1..], sep);
      assert s == [s[0]] + s[1..];
      if s[0] == sep {
        JoinCons([], rest, sep);
      } else if |rest| == 1 {
        assert Split(s, sep) == [[s[0]] + rest[0]];
      } else {
        JoinCons(rest[0], rest[1..], sep);
        assert [rest[0]] + rest[1..] == rest;
        JoinCons([s[0]] + rest[0], rest[1..], sep);
        Seqs.Associative([s[0]], rest[0], [sep] + Join(rest[1..], sep));
        Seqs.Associative([s[0]] + rest[0], [sep], Join(rest[1..], sep));
        Seqs.Associative(rest[0], [sep], Join(rest[1..], sep));
      }
    }
  }

  /** Joining a piece in front of non-empty pieces. */
  lemma JoinCons(p: string, pieces: seq<string>, sep: char)
    requires |pieces| >= 1
    ensures Join([p] + pieces, sep) == p + [sep] + Join(pieces, sep)
  {
    assert ([p] + pieces)[1..] == pieces;
  }

  /** A field free of the separator, followed by a separator, splits off as one piece. */
  lemma {:induction false} SplitField(a: string, sep: char, b: string)
    requires sep !in a
    ensures Split(a + [sep] + b, sep) == [a] + Split(b, sep)
    decreases |a|
  {
    if a == [] {
      assert ([] + [sep] + b)[1..] == b;
    } else {
      SplitField(a[1..], sep, b);
      assert (a + [sep] + b)[1..] == a[1..] + [sep] + b;
      assert [a[0]] + a[1..] == a;
    }
  }

  /** A text free of the separator splits into itself alone. */
  lemma {:induction false} SplitWhole(a: string, sep: char)
    requires sep !in a
    ensures Split(a, sep) == [a]
    decreases |a|
  {
    if a != [] {
      SplitWhole(a[1..], sep);
      assert [a[0]] + a[1..] == a;
    }
  }

  lemma NoSeparatorInIntText(n: int)
    ensures Separator !in Decimal.IntText(n)
  {
    var s := Decimal.IntText(n);
    if n < 0 {
      assert s[1..] == Decimal.NatText(-n);
      assert forall i :: 1 <= i < |s| ==> Decimal.IsDigit(s[i]);
    }
  }

  /** The receiver recovers the three fields exactly when host and data type are
      free of '/'. */
  lemma SplitHeaderText(host: string, port: int, dataType: string)
    requires Separator !in host && Separator !in dataType
    ensures Split(HeaderText(host, port, dataType), Separator)
            == [host, Decimal.IntText(port), dataType]
  {
    var p := Decimal.IntText(port);
    NoSeparatorInIntText(port);
    assert HeaderText(host, port, dataType) == host + [Separator] + (p + [Separator] + dataType);
    SplitField(host, Separator, p + [Separator] + dataType);
    SplitField(p, Separator, dataType);
    SplitWhole(dataType, Separator);
  }

  /** Conversely, a '/' inside host or data type yields more than three pieces. */
  lemma SplitHeaderTextExtra(host: string, port: int, dataType: string)
    requires Separator in host || Separator in dataType
    ensures |Split(HeaderText(host, port, dataType), Separator)| > 3
  {
    var s := HeaderText(host, port, dataType);
    SplitCount(s, Separator);
    OccurrencesAppend(host, [Separator] + Decimal.IntText(port) + [Separator] + dataType, Separator);
    OccurrencesAppend([Separator] + Decimal.IntText(port) + [Separator], dataType, Separator);
    OccurrencesAppend([Separator], Decimal.IntText(port) + [Separator], Separator);
    OccurrencesAppend(Decimal.IntText(port), [Separator], Separator);
    OccurrencesPositive(host, Separator);
    OccurrencesPositive(dataType, Separator);
    assert s == host + ([Separator] + Decimal.IntText(port) + [Separator] + dataType);
    assert [Separator] + Decimal.IntText(port) + [Separator] + dataType
        == ([Separator] + Decimal.IntText(port) + [Separator]) + dataType;
    assert [Separator] + Decimal.IntText(port) + [Separator]
        == [Separator] + (Decimal.IntText(port) + [Separator]);
  }

  lemma {:induction false} OccurrencesAppend(a: string, b: string, c: char)
    ensures Occurrences(a + b, c) == Occurrences(a, c) + Occurrences(b, c)
    decreases |a|
  {
    if a == [] {
      assert a + b == b;
    } else {
      OccurrencesAppend(a[1..], b, c);
      assert (a + b)[1..] == a[1..] + b;
    }
  }

  lemma {:induction false} OccurrencesPositive(s: string, c: char)
    ensures c in s <==> Occurrences(s, c) > 0
    decreases |s|
  {
    if s != [] {
      OccurrencesPositive(s[1..], c);
      assert c in s <==> s[0] == c || c in s[1..];
    }
  }
}
