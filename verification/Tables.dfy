/** The constant tables of the encoder and the decoder. The tables both files hold are the same ones. */
module Tables {

  /** Decision levels of the 6-bit low-band quantizer. */
  function Q6(i: int): (r: int)
    requires 0 <= i < 32
    ensures 0 <= r <= 2919
  {
    match i
    case 0 => 0 case 1 => 35 case 2 => 72 case 3 => 110 case 4 => 150 case 5 => 190 case 6 => 233 case 7 => 276
    case 8 => 323 case 9 => 370 case 10 => 422 case 11 => 473
    case 12 => 530 case 13 => 587 case 14 => 650 case 15 => 714
    case 16 => 786 case 17 => 858 case 18 => 940 case 19 => 1023
    case 20 => 1121 case 21 => 1219 case 22 => 1339 case 23 => 1458
    case 24 => 1612 case 25 => 1765 case 26 => 1980 case 27 => 2195
    case 28 => 2557 case 29 => 2919 case 30 => 0 case _ => 0
  }

  /** Code for a negative difference, by search index. */
  function Iln(i: int): (r: int)
    requires 0 <= i < 32
    ensures 0 <= r < 64
    ensures 1 <= i <= 30 ==> 4 <= r
  {
    match i
    case 0 => 0 case 1 => 63 case 2 => 62 case 3 => 31 case 4 => 30 case 5 => 29 case 6 => 28 case 7 => 27
    case 8 => 26 case 9 => 25 case 10 => 24 case 11 => 23 case 12 => 22 case 13 => 21 case 14 => 20 case 15 => 19
    case 16 => 18 case 17 => 17 case 18 => 16 case 19 => 15 case 20 => 14 case 21 => 13 case 22 => 12 case 23 => 11
    case 24 => 10 case 25 => 9 case 26 => 8 case 27 => 7 case 28 => 6 case 29 => 5 case 30 => 4 case _ => 0
  }

  /** Code for a non-negative difference, by search index. */
  function Ilp(i: int): (r: int)
    requires 0 <= i < 32
    ensures 0 <= r < 64
    ensures 1 <= i <= 30 ==> 4 <= r
  {
    match i
    case 0 => 0 case 1 => 61 case 2 => 60 case 3 => 59 case 4 => 58 case 5 => 57 case 6 => 56 case 7 => 55
    case 8 => 54 case 9 => 53 case 10 => 52 case 11 => 51 case 12 => 50 case 13 => 49 case 14 => 48 case 15 => 47
    case 16 => 46 case 17 => 45 case 18 => 44 case 19 => 43 case 20 => 42 case 21 => 41 case 22 => 40 case 23 => 39
    case 24 => 38 case 25 => 37 case 26 => 36 case 27 => 35 case 28 => 34 case 29 => 33 case 30 => 32 case _ => 0
  }

  /** Low-band log step increments. */
  function Wl(i: int): (r: int)
    requires 0 <= i < 8
  {
    match i
    case 0 => -60 case 1 => -30 case 2 => 58 case 3 => 172 case 4 => 334 case 5 => 538 case 6 => 1198 case _ => 3042
  }

  /** Selects the increment from the 4-bit low-band index. */
  function Rl42(i: int): (r: int)
    requires 0 <= i < 16
    ensures 0 <= r < 8
  {
    match i
    case 0 => 0 case 1 => 7 case 2 => 6 case 3 => 5 case 4 => 4 case 5 => 3 case 6 => 2 case 7 => 1
    case 8 => 7 case 9 => 6 case 10 => 5 case 11 => 4 case 12 => 3 case 13 => 2 case 14 => 1 case _ => 0
  }

  /** One octave of the inverse log table. */
  function Ilb(i: int): (r: int)
    requires 0 <= i < 32
    ensures 2048 <= r <= 4008
  {
    match i
    case 0 => 2048 case 1 => 2093 case 2 => 2139 case 3 => 2186
    case 4 => 2233 case 5 => 2282 case 6 => 2332 case 7 => 2383
    case 8 => 2435 case 9 => 2489 case 10 => 2543 case 11 => 2599
    case 12 => 2656 case 13 => 2714 case 14 => 2774 case 15 => 2834
    case 16 => 2896 case 17 => 2960 case 18 => 3025 case 19 => 3091
    case 20 => 3158 case 21 => 3228 case 22 => 3298 case 23 => 3371
    case 24 => 3444 case 25 => 3520 case 26 => 3597 case 27 => 3676
    case 28 => 3756 case 29 => 3838 case 30 => 3922 case _ => 4008
  }

  /** 4-bit inverse quantizer; also the one that drives both predictors. */
  function Qm4(i: int): (r: int)
    requires 0 <= i < 16
    ensures -20456 <= r <= 20456
  {
    match i
    case 0 => 0 case 1 => -20456 case 2 => -12896 case 3 => -8968
    case 4 => -6288 case 5 => -4240 case 6 => -2584 case 7 => -1200
    case 8 => 20456 case 9 => 12896 case 10 => 8968 case 11 => 6288
    case 12 => 4240 case 13 => 2584 case 14 => 1200 case _ => 0
  }

  /** 5-bit inverse quantizer, decoder at 56 kbit/s. */
  function Qm5(i: int): (r: int)
    requires 0 <= i < 32
    ensures -23352 <= r <= 23352
  {
    match i
    case 0 => -280 case 1 => -280 case 2 => -23352 case 3 => -17560
    case 4 => -14120 case 5 => -11664 case 6 => -9752 case 7 => -8184
    case 8 => -6864 case 9 => -5712 case 10 => -4696 case 11 => -3784
    case 12 => -2960 case 13 => -2208 case 14 => -1520 case 15 => -880
    case 16 => 23352 case 17 => 17560 case 18 => 14120 case 19 => 11664
    case 20 => 9752 case 21 => 8184 case 22 => 6864 case 23 => 5712
    case 24 => 4696 case 25 => 3784 case 26 => 2960 case 27 => 2208
    case 28 => 1520 case 29 => 880 case 30 => 280 case _ => -280
  }

  /** 6-bit inverse quantizer, decoder at 64 kbit/s. */
  function Qm6(i: int): (r: int)
    requires 0 <= i < 64
    ensures -24808 <= r <= 24808
  {
    match i
    case 0 => -136 case 1 => -136 case 2 => -136 case 3 => -136
    case 4 => -24808 case 5 => -21904 case 6 => -19008 case 7 => -16704
    case 8 => -14984 case 9 => -13512 case 10 => -12280 case 11 => -11192
    case 12 => -10232 case 13 => -9360 case 14 => -8576 case 15 => -7856
    case 16 => -7192 case 17 => -6576 case 18 => -6000 case 19 => -5456
    case 20 => -4944 case 21 => -4464 case 22 => -4008 case 23 => -3576
    case 24 => -3168 case 25 => -2776 case 26 => -2400 case 27 => -2032
    case 28 => -1688 case 29 => -1360 case 30 => -1040 case 31 => -728
    case 32 => 24808 case 33 => 21904 case 34 => 19008 case 35 => 16704
    case 36 => 14984 case 37 => 13512 case 38 => 12280 case 39 => 11192
    case 40 => 10232 case 41 => 9360 case 42 => 8576 case 43 => 7856
    case 44 => 7192 case 45 => 6576 case 46 => 6000 case 47 => 5456
    case 48 => 4944 case 49 => 4464 case 50 => 4008 case 51 => 3576
    case 52 => 3168 case 53 => 2776 case 54 => 2400 case 55 => 2032
    case 56 => 1688 case 57 => 1360 case 58 => 1040 case 59 => 728
    case 60 => 432 case 61 => 136 case 62 => -432 case _ => -136
  }

  /** High-band inverse quantizer. */
  function Qm2(i: int): (r: int)
    requires 0 <= i < 4
    ensures -7408 <= r <= 7408
  {
    match i
    case 0 => -7408 case 1 => -1616 case 2 => 7408 case _ => 1616
  }

  /** Half of the symmetric 24-tap QMF impulse response, interleaved. */
  function QmfCoeff(i: int): (r: int)
    requires 0 <= i < 12
    ensures -805 <= r <= 3876
  {
    match i
    case 0 => 3 case 1 => -11 case 2 => 12 case 3 => 32 case 4 => -210 case 5 => 951 case 6 => 3876 case 7 => -805
    case 8 => 362 case 9 => -156 case 10 => 53 case _ => -11
  }

  /** High-band code for a negative difference. */
  function Ihn(i: int): (r: int)
    requires 0 <= i < 3
    ensures 0 <= r < 4
  {
    match i
    case 0 => 0 case 1 => 1 case _ => 0
  }

  /** High-band code for a non-negative difference. */
  function Ihp(i: int): (r: int)
    requires 0 <= i < 3
    ensures 0 <= r < 4
  {
    match i
    case 0 => 0 case 1 => 3 case _ => 2
  }

  /** High-band log step increments. */
  function Wh(i: int): (r: int)
    requires 0 <= i < 3
  {
    match i
    case 0 => 0 case 1 => -214 case _ => 798
  }

  /** Selects the increment from the high-band code. */
  function Rh2(i: int): (r: int)
    requires 0 <= i < 4
    ensures 1 <= r < 3
  {
    match i
    case 0 => 2 case 1 => 1 case 2 => 2 case _ => 1
  }
}
