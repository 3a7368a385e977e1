/** `ozo::detail::to_chrono_duration`: a PostgreSQL interval {microseconds, days, months} as one
    std::chrono::microseconds count, saturating at the int64 bounds instead of wrapping. */
module Interval {

  const MinInt64: int := -0x8000_0000_0000_0000
  const MaxInt64: int := 0x7fff_ffff_ffff_ffff
  const MinInt32: int := -0x8000_0000
  const MaxInt32: int := 0x7fff_ffff

  type Int64 = x: int | MinInt64 <= x <= MaxInt64
  type Int32 = x: int | MinInt32 <= x <= MaxInt32

  /** A month of an interval counts as 30 days, a day as 86 400 000 000 microseconds. */
  const DaysPerMonth: int := 30
  const MicrosPerDay: int := 86_400_000_000

  /** `ozo::detail::pg_interval`: the wire triple. */
  datatype PgInterval = PgInterval(micros: Int64, days: Int32, months: Int32)

  /** The mathematical length of the interval in microseconds, without any bound. */
  function ExactMicros(iv: PgInterval): int
  {
    iv.micros + (iv.days + DaysPerMonth * iv.months) * MicrosPerDay
  }

  function Clamp(x: int): Int64
  {
    if x < MinInt64 then MinInt64 else if x > MaxInt64 then MaxInt64 else x
  }

  function ToChronoDuration(iv: PgInterval): Int64
  {
    Clamp(ExactMicros(iv))
  }

  /** The conversion is exact whenever the exact length fits in int64, and saturates to the bound
      on the side it overflows otherwise. */
  lemma ChronoDurationSaturates(iv: PgInterval)
    ensures MinInt64 <= ExactMicros(iv) <= MaxInt64 ==> ToChronoDuration(iv) == ExactMicros(iv)
    ensures ExactMicros(iv) > MaxInt64 <==> ToChronoDuration(iv) == MaxInt64 && ExactMicros(iv) != MaxInt64
    ensures ExactMicros(iv) < MinInt64 <==> ToChronoDuration(iv) == MinInt64 && ExactMicros(iv) != MinInt64
  {
  }

  /** Days and months cancel before anything is clamped: trading k months for 30k days never
      changes the result, however large the intermediate products are. */
  lemma MonthIsThirtyDays(iv: PgInterval, k: int)
    requires MinInt32 <= iv.days + DaysPerMonth * k <= MaxInt32
    requires MinInt32 <= iv.months - k <= MaxInt32
    ensures ToChronoDuration(PgInterval(iv.micros, iv.days + DaysPerMonth * k, iv.months - k))
         == ToChronoDuration(iv)
  {
  }

  /** Saturation, unlike wrap-around, keeps the conversion monotone in every component. */
  lemma ChronoDurationMonotone(a: PgInterval, b: PgInterval)
    requires a.micros <= b.micros && a.days <= b.days && a.months <= b.months
    ensures ToChronoDuration(a) <= ToChronoDuration(b)
  {
  }

  /** The vectors of the conversion's parameterised test, including the ones that saturate. */
  lemma ChronoDurationVectors()
    ensures ToChronoDuration(PgInterval(36672013014, 9, 92)) == 239278272013014
    ensures ToChronoDuration(PgInterval(-49727986986, -20, 93)) == 239278272013014
    ensures ToChronoDuration(PgInterval(239278272013014, 0, 0)) == 239278272013014
    ensures ToChronoDuration(PgInterval(3333333333333333, 0, 0)) == 3333333333333333
    ensures ToChronoDuration(PgInterval(0, 200000, 0)) == 17280000000000000
    ensures ToChronoDuration(PgInterval(0, 0, 5555)) == 14398560000000000
    ensures ToChronoDuration(PgInterval(-14454775808, -106751991, 0)) == MinInt64
    ensures ToChronoDuration(PgInterval(71945224192, -106751992, 0)) == MinInt64
    ensures ToChronoDuration(PgInterval(-532854775808, -555555555, 14960119)) == MinInt64
    ensures ToChronoDuration(PgInterval(14454775807, 106751991, 0)) == MaxInt64
    ensures ToChronoDuration(PgInterval(-71945224193, 106751992, 0)) == MaxInt64
    ensures ToChronoDuration(PgInterval(9223370740854775807, 555555555, -18518518)) == MaxInt64
    ensures ToChronoDuration(PgInterval(-14454775809, -106751991, 0)) == MinInt64
    ensures ToChronoDuration(PgInterval(14454775808, 106751991, 0)) == MaxInt64
    ensures ToChronoDuration(PgInterval(MinInt64, MinInt32, MinInt32)) == MinInt64
    ensures ToChronoDuration(PgInterval(MaxInt64, MaxInt32, MaxInt32)) == MaxInt64
  {
  }
}
