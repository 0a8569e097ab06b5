/** Progress arithmetic: the percentage of ota-api-report.c and the bar the advanced example draws. */
module Report {
  import opened Esp

  const BAR_WIDTH: nat := 30

  /** ota_api_progress_t */
  datatype Progress = Progress(bytesRead: nat, totalBytes: nat, percent: int)

  /** The 64-bit quotient before it is narrowed to int. */
  function WidePercent(read: nat, total: int): int
    requires total > 0
  {
    read * 100 / total
  }

  /** The snapshot built for OTA_API_EVENT_PROGRESS. */
  function Snapshot(read: nat, total: int): Progress {
    Progress(read, if total > 0 then total else 0,
             if total > 0 then TruncateToInt32(WidePercent(read, total)) else -1)
  }

  /** Division brackets: q is at most a / b exactly when q whole divisors fit in a. */
  lemma QuotientAtLeast(a: int, b: int, q: int)
    requires b > 0
    ensures q <= a / b <==> q * b <= a
  {
    assert a == a / b * b + a % b;
    ScaleOrder(q, a / b, b);
    ScaleOrder(a / b + 1, q, b);
  }

  /** The product fits the 64-bit type for every pair of 32-bit counts, and the narrowing
      keeps the percentage exactly when the quotient fits an int. */
  lemma PercentWidth(read: int32, total: int32)
    requires read >= 0 && total > 0
    ensures 0 <= read * 100 < 0x8000_0000_0000_0000
    ensures Snapshot(read, total).percent == WidePercent(read, total)
            <==> read * 100 < 0x8000_0000 * total
  {
    QuotientAtLeast(read * 100, total, 0);
    QuotientAtLeast(read * 100, total, 0x8000_0000);
    var q := WidePercent(read, total);
    assert 0 <= q;
    assert TruncateToInt32(q) == q <==> q < 0x8000_0000;
  }

  /** What the snapshot carries besides: the bytes read, the size if there is one, and -1 for a
      percentage nobody can know. Until the announced size is exceeded, -1 means just that. */
  lemma SnapshotFields(read: int32, total: int32)
    requires read >= 0
    ensures var p := Snapshot(read, total);
            && p.bytesRead == read
            && p.totalBytes == (if total > 0 then total else 0)
            && (total <= 0 ==> p.percent == -1)
            && (read <= total ==> (p.percent == -1 <==> total == 0))
  {
    if total > 0 && read <= total {
      PercentExact(read, total);
    }
  }

  /** The promised 0..100 is kept exactly while less than one percent more than the announced
      size has been read. Up to that size the percentage is the rounded share, reaching 100 only
      on the last byte, and the unsigned remainder is exact; past it, it wraps. */
  lemma PercentExact(read: int32, total: int32)
    requires read >= 0 && total > 0
    ensures var p := Snapshot(read, total).percent;
            && (p == WidePercent(read, total) && 0 <= p <= 100 <==> read * 100 < 101 * total)
            && (read <= total ==> (p == 100 <==> read == total) && p * total <= 100 * read < (p + 1) * total)
    ensures Remaining(Snapshot(read, total)) == total - read <==> read <= total
  {
    PercentWidth(read, total);
    QuotientAtLeast(read * 100, total, 0);
    QuotientAtLeast(read * 100, total, 100);
    QuotientAtLeast(read * 100, total, 101);
    var q := WidePercent(read, total);
    QuotientAtLeast(read * 100, total, q);
    QuotientAtLeast(read * 100, total, q + 1);
  }

  /** A server that sends more than it announced takes the percentage out of its range, below
      zero, and even back into it. */
  lemma PercentLeavesRange()
    ensures Snapshot(2, 1).percent == 200
    ensures Snapshot(21474837, 1).percent < -1
    ensures Snapshot(42949673, 1).percent == 4
  {
  }

  lemma PercentMonotone(read: int32, more: int32, total: int32)
    requires 0 <= read <= more && total > 0 && more * 100 < 0x8000_0000 * total
    ensures Snapshot(read, total).percent <= Snapshot(more, total).percent
  {
    PercentWidth(read, total);
    PercentWidth(more, total);
    QuotientAtLeast(read * 100, total, WidePercent(read, total));
    QuotientAtLeast(more * 100, total, WidePercent(read, total));
  }

  /** total_bytes - bytes_read, in size_t. */
  function Remaining(p: Progress): uint32 {
    (p.totalBytes - p.bytesRead) % 0x1_0000_0000
  }

  /** What print_progress_bar() draws with: nothing for an unknown size, a terminated bar, or a
      buffer one of its fills ran out of. */
  datatype Picture = NoBar | Drawn(cells: string) | OutOfBounds

  /** The picture a percentage stands for: hashes up to the filled width, dots after it. */
  function Bar(percent: nat): string {
    seq(BAR_WIDTH, i => if 100 * (i + 1) <= percent * BAR_WIDTH then '#' else '.')
  }

  /** memset(bar + at, c, count), and whether it is a count and stays inside the buffer. */
  method Fill(bar: array<char>, at: nat, c: char, count: int) returns (inside: bool)
    requires at <= bar.Length
    modifies bar
    ensures inside <==> 0 <= count <= bar.Length - at
    ensures forall j :: 0 <= j < bar.Length ==>
              bar[j] == if inside && at <= j < at + count then c else old(bar[j])
  {
    inside := 0 <= count <= bar.Length - at;
    if inside {
      for i := at to at + count
        invariant forall j :: 0 <= j < bar.Length ==> bar[j] == if at <= j < i then c else old(bar[j])
      {
        bar[i] := c;
      }
    }
  }

  /** The bar of print_progress_bar(), for every percentage it can be given. It fits its buffer
      exactly up to 103; from there on the second count is negative (and the int product before
      them overflows only past 71582788, where they have long failed). */
  method DrawBar(percent: int32) returns (picture: Picture)
    ensures picture.NoBar? <==> percent < 0
    ensures picture.OutOfBounds? <==> percent > 103
    ensures 0 <= percent <= 103 ==>
              picture == Drawn(Bar(percent) + ['\0']) && |Bar(percent)| == 30
              && forall i :: 0 <= i < 30 ==> Bar(percent)[i] == if 100 * (i + 1) <= percent * 30 then '#' else '.'
  {
    if percent < 0 {
      return NoBar;
    }
    var bar := new char[BAR_WIDTH + 1];
    var filled := percent * BAR_WIDTH / 100;
    var inside := Fill(bar, 0, '#', filled);
    if inside {
      inside := Fill(bar, filled, '.', BAR_WIDTH - filled);
    }
    if !inside {
      return OutOfBounds;
    }
    bar[BAR_WIDTH] := '\0';
    assert forall j :: 0 <= j <= BAR_WIDTH ==> bar[..][j] == (Bar(percent) + ['\0'])[j];
    assert bar[..] == Bar(percent) + ['\0'];
    return Drawn(bar[..]);
  }

  /** What that means for a download: the percentage is one the bar cannot hold exactly when its
      low 32 bits say so, and while the quotient fits an int, exactly when at least 4% more than
      the announced size has been read. */
  lemma BarOverrunExactly(read: int32, total: int32)
    requires read >= 0
    ensures Snapshot(read, total).percent > 103
            <==> total > 0 && 104 <= WidePercent(read, total) % 0x1_0000_0000 < 0x8000_0000
    ensures total > 0 && read * 100 < 0x8000_0000 * total ==>
              (Snapshot(read, total).percent > 103 <==> read * 100 >= 104 * total)
  {
    if total > 0 {
      PercentWidth(read, total);
      QuotientAtLeast(read * 100, total, 104);
    }
  }

  /** A bar only ever fills up along a download, and is full exactly when every byte is in. */
  lemma BarFollowsDownload(read: int32, more: int32, total: int32, i: nat)
    requires 0 <= read <= more <= total && total > 0 && i < BAR_WIDTH
    ensures 0 <= Snapshot(read, total).percent <= 100 && 0 <= Snapshot(more, total).percent <= 100
    ensures Bar(Snapshot(read, total).percent)[i] == '#' ==> Bar(Snapshot(more, total).percent)[i] == '#'
    ensures Bar(Snapshot(read, total).percent)[BAR_WIDTH - 1] == '#' <==> read == total
  {
    PercentExact(read, total);
    PercentExact(more, total);
    PercentMonotone(read, more, total);
  }
}
