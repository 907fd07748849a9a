/** The cached powers of ten of Grisu2 (libraries/eosiolib/tester/powers.h): the
    search for one that brings a binary exponent into [-60, -32], and the proof
    that every entry is within half a unit in its last place of the power of ten
    it stands for. */
module GrisuPowers {
  import opened Words
  import opened Decimal
  import opened RealPowers

  const ENTRIES := 87
  const FIRST_POWER := -348
  const STEP := 8
  const EXP_MIN := -60
  const EXP_MAX := -32

  /** The significands of the table. */
  function Frac(k: nat): nat
    requires k < ENTRIES
  {
    if k == 0 then 18054884314459144840 else if k == 1 then 13451937075301367670
    else if k == 2 then 10022474136428063862 else if k == 3 then 14934650266808366570
    else if k == 4 then 11127181549972568877 else if k == 5 then 16580792590934885855
    else if k == 6 then 12353653155963782858 else if k == 7 then 18408377700990114895
    else if k == 8 then 13715310171984221708 else if k == 9 then 10218702384817765436
    else if k == 10 then 15227053142812498563 else if k == 11 then 11345038669416679861
    else if k == 12 then 16905424996341287883 else if k == 13 then 12595523146049147757
    else if k == 14 then 9384396036005875287 else if k == 15 then 13983839803942852151
    else if k == 16 then 10418772551374772303 else if k == 17 then 15525180923007089351
    else if k == 18 then 11567161174868858868 else if k == 19 then 17236413322193710309
    else if k == 20 then 12842128665889583758 else if k == 21 then 9568131466127621947
    else if k == 22 then 14257626930069360058 else if k == 23 then 10622759856335341974
    else if k == 24 then 15829145694278690180 else if k == 25 then 11793632577567316726
    else if k == 26 then 17573882009934360870 else if k == 27 then 13093562431584567480
    else if k == 28 then 9755464219737475723 else if k == 29 then 14536774485912137811
    else if k == 30 then 10830740992659433045 else if k == 31 then 16139061738043178685
    else if k == 32 then 12024538023802026127 else if k == 33 then 17917957937422433684
    else if k == 34 then 13349918974505688015 else if k == 35 then 9946464728195732843
    else if k == 36 then 14821387422376473014 else if k == 37 then 11042794154864902060
    else if k == 38 then 16455045573212060422 else if k == 39 then 12259964326927110867
    else if k == 40 then 18268770466636286478 else if k == 41 then 13611294676837538539
    else if k == 42 then 10141204801825835212 else if k == 43 then 15111572745182864684
    else if k == 44 then 11258999068426240000 else if k == 45 then 16777216000000000000
    else if k == 46 then 12500000000000000000 else if k == 47 then 9313225746154785156
    else if k == 48 then 13877787807814456755 else if k == 49 then 10339757656912845936
    else if k == 50 then 15407439555097886824 else if k == 51 then 11479437019748901445
    else if k == 52 then 17105694144590052135 else if k == 53 then 12744735289059618216
    else if k == 54 then 9495567745759798747 else if k == 55 then 14149498560666738074
    else if k == 56 then 10542197943230523224 else if k == 57 then 15709099088952724970
    else if k == 58 then 11704190886730495818 else if k == 59 then 17440603504673385349
    else if k == 60 then 12994262207056124023 else if k == 61 then 9681479787123295682
    else if k == 62 then 14426529090290212157 else if k == 63 then 10748601772107342003
    else if k == 64 then 16016664761464807395 else if k == 65 then 11933345169920330789
    else if k == 66 then 17782069995880619868 else if k == 67 then 13248674568444952270
    else if k == 68 then 9871031767461413346 else if k == 69 then 14708983551653345445
    else if k == 70 then 10959046745042015199 else if k == 71 then 16330252207878254650
    else if k == 72 then 12166986024289022870 else if k == 73 then 18130221999122236476
    else if k == 74 then 13508068024458167312 else if k == 75 then 10064294952495520794
    else if k == 76 then 14996968138956309548 else if k == 77 then 11173611982879273257
    else if k == 78 then 16649979327439178909 else if k == 79 then 12405201291620119593
    else if k == 80 then 9242595204427927429 else if k == 81 then 13772540099066387757
    else if k == 82 then 10261342003245940623 else if k == 83 then 15290591125556738113
    else if k == 84 then 11392378155556871081 else if k == 85 then 16975966327722178521 else 12648080533535911531
  }

  /** The binary exponents of the table. */
  function Exponent(k: nat): int
    requires k < ENTRIES
  {
    if k == 0 then -1220 else if k == 1 then -1193 else if k == 2 then -1166 else if k == 3 then -1140
    else if k == 4 then -1113 else if k == 5 then -1087 else if k == 6 then -1060 else if k == 7 then -1034
    else if k == 8 then -1007 else if k == 9 then -980 else if k == 10 then -954 else if k == 11 then -927
    else if k == 12 then -901 else if k == 13 then -874 else if k == 14 then -847 else if k == 15 then -821
    else if k == 16 then -794 else if k == 17 then -768 else if k == 18 then -741 else if k == 19 then -715
    else if k == 20 then -688 else if k == 21 then -661 else if k == 22 then -635 else if k == 23 then -608
    else if k == 24 then -582 else if k == 25 then -555 else if k == 26 then -529 else if k == 27 then -502
    else if k == 28 then -475 else if k == 29 then -449 else if k == 30 then -422 else if k == 31 then -396
    else if k == 32 then -369 else if k == 33 then -343 else if k == 34 then -316 else if k == 35 then -289
    else if k == 36 then -263 else if k == 37 then -236 else if k == 38 then -210 else if k == 39 then -183
    else if k == 40 then -157 else if k == 41 then -130 else if k == 42 then -103 else if k == 43 then -77
    else if k == 44 then -50 else if k == 45 then -24 else if k == 46 then 3 else if k == 47 then 30
    else if k == 48 then 56 else if k == 49 then 83 else if k == 50 then 109 else if k == 51 then 136
    else if k == 52 then 162 else if k == 53 then 189 else if k == 54 then 216 else if k == 55 then 242
    else if k == 56 then 269 else if k == 57 then 295 else if k == 58 then 322 else if k == 59 then 348
    else if k == 60 then 375 else if k == 61 then 402 else if k == 62 then 428 else if k == 63 then 455
    else if k == 64 then 481 else if k == 65 then 508 else if k == 66 then 534 else if k == 67 then 561
    else if k == 68 then 588 else if k == 69 then 614 else if k == 70 then 641 else if k == 71 then 667
    else if k == 72 then 694 else if k == 73 then 720 else if k == 74 then 747 else if k == 75 then 774
    else if k == 76 then 800 else if k == 77 then 827 else if k == 78 then 853 else if k == 79 then 880
    else if k == 80 then 907 else if k == 81 then 933 else if k == 82 then 960 else if k == 83 then 986
    else if k == 84 then 1013 else if k == 85 then 1039 else 1066
  }

  /** Entry k stands for 10 to this power. */
  function TenPower(k: nat): int { FIRST_POWER + STEP * k }

  // ----- the exact powers, for comparison

  /** 10^(4 + 8k). */
  function TenTo(k: nat): nat {
    if k == 0 then 10000 else if k == 1 then 1000000000000 else if k == 2 then 100000000000000000000
    else if k == 3 then 10000000000000000000000000000 else if k == 4 then 1000000000000000000000000000000000000
    else if k == 5 then 100000000000000000000000000000000000000000000
    else if k == 6 then 10000000000000000000000000000000000000000000000000000
    else if k == 7 then 1000000000000000000000000000000000000000000000000000000000000
    else if k == 8 then 100000000000000000000000000000000000000000000000000000000000000000000
    else if k == 9 then 10000000000000000000000000000000000000000000000000000000000000000000000000000
    else if k == 10 then 1000000000000000000000000000000000000000000000000000000000000000000000000000000000000
    else if k == 11 then 100000000000000000000000000000000000000000000000000000000000000000000000000000000000000000000
    else if k == 12 then 10000000000000000000000000000000000000000000000000000000000000000000000000000000000000000000000000000
    else if k == 13 then 1000000000000000000000000000000000000000000000000000000000000000000000000000000000000000000000000000000000000
    else if k == 14 then 100000000000000000000000000000000000000000000000000000000000000000000000000000000000000000000000000000000000000000000
    else if k == 15 then 10000000000000000000000000000000000000000000000000000000000000000000000000000000000000000000000000000000000000000000000000000
    else if k == 16 then 1000000000000000000000000000000000000000000000000000000000000000000000000000000000000000000000000000000000000000000000000000000000000
    else if k == 17 then 100000000000000000000000000000000000000000000000000000000000000000000000000000000000000000000000000000000000000000000000000000000000000000000
    else if k == 18 then 10000000000000000000000000000000000000000000000000000000000000000000000000000000000000000000000000000000000000000000000000000000000000000000000000000
    else if k == 19 then 1000000000000000000000000000000000000000000000000000000000000000000000000000000000000000000000000000000000000000000000000000000000000000000000000000000000000
    else if k == 20 then 100000000000000000000000000000000000000000000000000000000000000000000000000000000000000000000000000000000000000000000000000000000000000000000000000000000000000000000
    else if k == 21 then 10000000000000000000000000000000000000000000000000000000000000000000000000000000000000000000000000000000000000000000000000000000000000000000000000000000000000000000000000000
    else if k == 22 then 1000000000000000000000000000000000000000000000000000000000000000000000000000000000000000000000000000000000000000000000000000000000000000000000000000000000000000000000000000000000000
    else if k == 23 then 100000000000000000000000000000000000000000000000000000000000000000000000000000000000000000000000000000000000000000000000000000000000000000000000000000000000000000000000000000000000000000000
    else if k == 24 then 10000000000000000000000000000000000000000000000000000000000000000000000000000000000000000000000000000000000000000000000000000000000000000000000000000000000000000000000000000000000000000000000000000
    else if k == 25 then 1000000000000000000000000000000000000000000000000000000000000000000000000000000000000000000000000000000000000000000000000000000000000000000000000000000000000000000000000000000000000000000000000000000000000
    else if k == 26 then 100000000000000000000000000000000000000000000000000000000000000000000000000000000000000000000000000000000000000000000000000000000000000000000000000000000000000000000000000000000000000000000000000000000000000000000
    else if k == 27 then 10000000000000000000000000000000000000000000000000000000000000000000000000000000000000000000000000000000000000000000000000000000000000000000000000000000000000000000000000000000000000000000000000000000000000000000000000000
    else if k == 28 then 1000000000000000000000000000000000000000000000000000000000000000000000000000000000000000000000000000000000000000000000000000000000000000000000000000000000000000000000000000000000000000000000000000000000000000000000000000000000000
    else if k == 29 then 100000000000000000000000000000000000000000000000000000000000000000000000000000000000000000000000000000000000000000000000000000000000000000000000000000000000000000000000000000000000000000000000000000000000000000000000000000000000000000000
    else if k == 30 then 10000000000000000000000000000000000000000000000000000000000000000000000000000000000000000000000000000000000000000000000000000000000000000000000000000000000000000000000000000000000000000000000000000000000000000000000000000000000000000000000000000
    else if k == 31 then 1000000000000000000000000000000000000000000000000000000000000000000000000000000000000000000000000000000000000000000000000000000000000000000000000000000000000000000000000000000000000000000000000000000000000000000000000000000000000000000000000000000000000
    else if k == 32 then 100000000000000000000000000000000000000000000000000000000000000000000000000000000000000000000000000000000000000000000000000000000000000000000000000000000000000000000000000000000000000000000000000000000000000000000000000000000000000000000000000000000000000000000
    else if k == 33 then 10000000000000000000000000000000000000000000000000000000000000000000000000000000000000000000000000000000000000000000000000000000000000000000000000000000000000000000000000000000000000000000000000000000000000000000000000000000000000000000000000000000000000000000000000000
    else if k == 34 then 1000000000000000000000000000000000000000000000000000000000000000000000000000000000000000000000000000000000000000000000000000000000000000000000000000000000000000000000000000000000000000000000000000000000000000000000000000000000000000000000000000000000000000000000000000000000000
    else if k == 35 then 100000000000000000000000000000000000000000000000000000000000000000000000000000000000000000000000000000000000000000000000000000000000000000000000000000000000000000000000000000000000000000000000000000000000000000000000000000000000000000000000000000000000000000000000000000000000000000000
    else if k == 36 then 10000000000000000000000000000000000000000000000000000000000000000000000000000000000000000000000000000000000000000000000000000000000000000000000000000000000000000000000000000000000000000000000000000000000000000000000000000000000000000000000000000000000000000000000000000000000000000000000000000
    else if k == 37 then 1000000000000000000000000000000000000000000000000000000000000000000000000000000000000000000000000000000000000000000000000000000000000000000000000000000000000000000000000000000000000000000000000000000000000000000000000000000000000000000000000000000000000000000000000000000000000000000000000000000000000
    else if k == 38 then 100000000000000000000000000000000000000000000000000000000000000000000000000000000000000000000000000000000000000000000000000000000000000000000000000000000000000000000000000000000000000000000000000000000000000000000000000000000000000000000000000000000000000000000000000000000000000000000000000000000000000000000
    else if k == 39 then 10000000000000000000000000000000000000000000000000000000000000000000000000000000000000000000000000000000000000000000000000000000000000000000000000000000000000000000000000000000000000000000000000000000000000000000000000000000000000000000000000000000000000000000000000000000000000000000000000000000000000000000000000000
    else if k == 40 then 1000000000000000000000000000000000000000000000000000000000000000000000000000000000000000000000000000000000000000000000000000000000000000000000000000000000000000000000000000000000000000000000000000000000000000000000000000000000000000000000000000000000000000000000000000000000000000000000000000000000000000000000000000000000000
    else if k == 41 then 100000000000000000000000000000000000000000000000000000000000000000000000000000000000000000000000000000000000000000000000000000000000000000000000000000000000000000000000000000000000000000000000000000000000000000000000000000000000000000000000000000000000000000000000000000000000000000000000000000000000000000000000000000000000000000000
    else if k == 42 then 10000000000000000000000000000000000000000000000000000000000000000000000000000000000000000000000000000000000000000000000000000000000000000000000000000000000000000000000000000000000000000000000000000000000000000000000000000000000000000000000000000000000000000000000000000000000000000000000000000000000000000000000000000000000000000000000000000
    else 1000000000000000000000000000000000000000000000000000000000000000000000000000000000000000000000000000000000000000000000000000000000000000000000000000000000000000000000000000000000000000000000000000000000000000000000000000000000000000000000000000000000000000000000000000000000000000000000000000000000000000000000000000000000000000000000000000000000000
  }

  /** 2^(-Exponent(k)), for the entries whose exponent is negative. */
  function TwoToMinus(k: nat): nat {
    if k == 0 then 0x100000000000000000000000000000000000000000000000000000000000000000000000000000000000000000000000000000000000000000000000000000000000000000000000000000000000000000000000000000000000000000000000000000000000000000000000000000000000000000000000000000000000000000000000000000000000000000000000000000000000000000
    else if k == 1 then 0x20000000000000000000000000000000000000000000000000000000000000000000000000000000000000000000000000000000000000000000000000000000000000000000000000000000000000000000000000000000000000000000000000000000000000000000000000000000000000000000000000000000000000000000000000000000000000000000000000000000000
    else if k == 2 then 0x4000000000000000000000000000000000000000000000000000000000000000000000000000000000000000000000000000000000000000000000000000000000000000000000000000000000000000000000000000000000000000000000000000000000000000000000000000000000000000000000000000000000000000000000000000000000000000000000000000
    else if k == 3 then 0x1000000000000000000000000000000000000000000000000000000000000000000000000000000000000000000000000000000000000000000000000000000000000000000000000000000000000000000000000000000000000000000000000000000000000000000000000000000000000000000000000000000000000000000000000000000000000000000000
    else if k == 4 then 0x200000000000000000000000000000000000000000000000000000000000000000000000000000000000000000000000000000000000000000000000000000000000000000000000000000000000000000000000000000000000000000000000000000000000000000000000000000000000000000000000000000000000000000000000000000000000000
    else if k == 5 then 0x80000000000000000000000000000000000000000000000000000000000000000000000000000000000000000000000000000000000000000000000000000000000000000000000000000000000000000000000000000000000000000000000000000000000000000000000000000000000000000000000000000000000000000000000000000000
    else if k == 6 then 0x10000000000000000000000000000000000000000000000000000000000000000000000000000000000000000000000000000000000000000000000000000000000000000000000000000000000000000000000000000000000000000000000000000000000000000000000000000000000000000000000000000000000000000000000000
    else if k == 7 then 0x4000000000000000000000000000000000000000000000000000000000000000000000000000000000000000000000000000000000000000000000000000000000000000000000000000000000000000000000000000000000000000000000000000000000000000000000000000000000000000000000000000000000000000000
    else if k == 8 then 0x800000000000000000000000000000000000000000000000000000000000000000000000000000000000000000000000000000000000000000000000000000000000000000000000000000000000000000000000000000000000000000000000000000000000000000000000000000000000000000000000000000000000
    else if k == 9 then 0x100000000000000000000000000000000000000000000000000000000000000000000000000000000000000000000000000000000000000000000000000000000000000000000000000000000000000000000000000000000000000000000000000000000000000000000000000000000000000000000000000000
    else if k == 10 then 0x40000000000000000000000000000000000000000000000000000000000000000000000000000000000000000000000000000000000000000000000000000000000000000000000000000000000000000000000000000000000000000000000000000000000000000000000000000000000000000000000
    else if k == 11 then 0x8000000000000000000000000000000000000000000000000000000000000000000000000000000000000000000000000000000000000000000000000000000000000000000000000000000000000000000000000000000000000000000000000000000000000000000000000000000000000000
    else if k == 12 then 0x2000000000000000000000000000000000000000000000000000000000000000000000000000000000000000000000000000000000000000000000000000000000000000000000000000000000000000000000000000000000000000000000000000000000000000000000000000000000
    else if k == 13 then 0x400000000000000000000000000000000000000000000000000000000000000000000000000000000000000000000000000000000000000000000000000000000000000000000000000000000000000000000000000000000000000000000000000000000000000000000000000
    else if k == 14 then 0x80000000000000000000000000000000000000000000000000000000000000000000000000000000000000000000000000000000000000000000000000000000000000000000000000000000000000000000000000000000000000000000000000000000000000000000
    else if k == 15 then 0x20000000000000000000000000000000000000000000000000000000000000000000000000000000000000000000000000000000000000000000000000000000000000000000000000000000000000000000000000000000000000000000000000000000000000
    else if k == 16 then 0x4000000000000000000000000000000000000000000000000000000000000000000000000000000000000000000000000000000000000000000000000000000000000000000000000000000000000000000000000000000000000000000000000000000
    else if k == 17 then 0x1000000000000000000000000000000000000000000000000000000000000000000000000000000000000000000000000000000000000000000000000000000000000000000000000000000000000000000000000000000000000000000000000
    else if k == 18 then 0x200000000000000000000000000000000000000000000000000000000000000000000000000000000000000000000000000000000000000000000000000000000000000000000000000000000000000000000000000000000000000000
    else if k == 19 then 0x80000000000000000000000000000000000000000000000000000000000000000000000000000000000000000000000000000000000000000000000000000000000000000000000000000000000000000000000000000000000
    else if k == 20 then 0x10000000000000000000000000000000000000000000000000000000000000000000000000000000000000000000000000000000000000000000000000000000000000000000000000000000000000000000000000000
    else if k == 21 then 0x2000000000000000000000000000000000000000000000000000000000000000000000000000000000000000000000000000000000000000000000000000000000000000000000000000000000000000000000
    else if k == 22 then 0x800000000000000000000000000000000000000000000000000000000000000000000000000000000000000000000000000000000000000000000000000000000000000000000000000000000000000
    else if k == 23 then 0x100000000000000000000000000000000000000000000000000000000000000000000000000000000000000000000000000000000000000000000000000000000000000000000000000000000
    else if k == 24 then 0x40000000000000000000000000000000000000000000000000000000000000000000000000000000000000000000000000000000000000000000000000000000000000000000000000
    else if k == 25 then 0x8000000000000000000000000000000000000000000000000000000000000000000000000000000000000000000000000000000000000000000000000000000000000000000
    else if k == 26 then 0x2000000000000000000000000000000000000000000000000000000000000000000000000000000000000000000000000000000000000000000000000000000000000
    else if k == 27 then 0x400000000000000000000000000000000000000000000000000000000000000000000000000000000000000000000000000000000000000000000000000000
    else if k == 28 then 0x80000000000000000000000000000000000000000000000000000000000000000000000000000000000000000000000000000000000000000000000
    else if k == 29 then 0x20000000000000000000000000000000000000000000000000000000000000000000000000000000000000000000000000000000000000000
    else if k == 30 then 0x4000000000000000000000000000000000000000000000000000000000000000000000000000000000000000000000000000000000
    else if k == 31 then 0x1000000000000000000000000000000000000000000000000000000000000000000000000000000000000000000000000000
    else if k == 32 then 0x200000000000000000000000000000000000000000000000000000000000000000000000000000000000000000000
    else if k == 33 then 0x80000000000000000000000000000000000000000000000000000000000000000000000000000000000000
    else if k == 34 then 0x10000000000000000000000000000000000000000000000000000000000000000000000000000000
    else if k == 35 then 0x2000000000000000000000000000000000000000000000000000000000000000000000000
    else if k == 36 then 0x800000000000000000000000000000000000000000000000000000000000000000
    else if k == 37 then 0x100000000000000000000000000000000000000000000000000000000000
    else if k == 38 then 0x40000000000000000000000000000000000000000000000000000
    else if k == 39 then 0x8000000000000000000000000000000000000000000000
    else if k == 40 then 0x2000000000000000000000000000000000000000
    else if k == 41 then 0x400000000000000000000000000000000 else if k == 42 then 0x80000000000000000000000000
    else if k == 43 then 0x20000000000000000000 else if k == 44 then 0x4000000000000 else 0x1000000
  }

  /** 2^Exponent(k + 46), for the others. */
  function TwoTo(k: nat): nat {
    if k == 0 then 0x8 else if k == 1 then 0x40000000 else if k == 2 then 0x100000000000000
    else if k == 3 then 0x800000000000000000000 else if k == 4 then 0x2000000000000000000000000000
    else if k == 5 then 0x10000000000000000000000000000000000
    else if k == 6 then 0x40000000000000000000000000000000000000000
    else if k == 7 then 0x200000000000000000000000000000000000000000000000
    else if k == 8 then 0x1000000000000000000000000000000000000000000000000000000
    else if k == 9 then 0x4000000000000000000000000000000000000000000000000000000000000
    else if k == 10 then 0x20000000000000000000000000000000000000000000000000000000000000000000
    else if k == 11 then 0x80000000000000000000000000000000000000000000000000000000000000000000000000
    else if k == 12 then 0x400000000000000000000000000000000000000000000000000000000000000000000000000000000
    else if k == 13 then 0x1000000000000000000000000000000000000000000000000000000000000000000000000000000000000000
    else if k == 14 then 0x8000000000000000000000000000000000000000000000000000000000000000000000000000000000000000000000
    else if k == 15 then 0x40000000000000000000000000000000000000000000000000000000000000000000000000000000000000000000000000000
    else if k == 16 then 0x100000000000000000000000000000000000000000000000000000000000000000000000000000000000000000000000000000000000
    else if k == 17 then 0x800000000000000000000000000000000000000000000000000000000000000000000000000000000000000000000000000000000000000000
    else if k == 18 then 0x2000000000000000000000000000000000000000000000000000000000000000000000000000000000000000000000000000000000000000000000000
    else if k == 19 then 0x10000000000000000000000000000000000000000000000000000000000000000000000000000000000000000000000000000000000000000000000000000000
    else if k == 20 then 0x40000000000000000000000000000000000000000000000000000000000000000000000000000000000000000000000000000000000000000000000000000000000000
    else if k == 21 then 0x200000000000000000000000000000000000000000000000000000000000000000000000000000000000000000000000000000000000000000000000000000000000000000000
    else if k == 22 then 0x1000000000000000000000000000000000000000000000000000000000000000000000000000000000000000000000000000000000000000000000000000000000000000000000000000
    else if k == 23 then 0x4000000000000000000000000000000000000000000000000000000000000000000000000000000000000000000000000000000000000000000000000000000000000000000000000000000000
    else if k == 24 then 0x20000000000000000000000000000000000000000000000000000000000000000000000000000000000000000000000000000000000000000000000000000000000000000000000000000000000000000
    else if k == 25 then 0x80000000000000000000000000000000000000000000000000000000000000000000000000000000000000000000000000000000000000000000000000000000000000000000000000000000000000000000000
    else if k == 26 then 0x400000000000000000000000000000000000000000000000000000000000000000000000000000000000000000000000000000000000000000000000000000000000000000000000000000000000000000000000000000
    else if k == 27 then 0x1000000000000000000000000000000000000000000000000000000000000000000000000000000000000000000000000000000000000000000000000000000000000000000000000000000000000000000000000000000000000
    else if k == 28 then 0x8000000000000000000000000000000000000000000000000000000000000000000000000000000000000000000000000000000000000000000000000000000000000000000000000000000000000000000000000000000000000000000
    else if k == 29 then 0x40000000000000000000000000000000000000000000000000000000000000000000000000000000000000000000000000000000000000000000000000000000000000000000000000000000000000000000000000000000000000000000000000
    else if k == 30 then 0x100000000000000000000000000000000000000000000000000000000000000000000000000000000000000000000000000000000000000000000000000000000000000000000000000000000000000000000000000000000000000000000000000000000
    else if k == 31 then 0x800000000000000000000000000000000000000000000000000000000000000000000000000000000000000000000000000000000000000000000000000000000000000000000000000000000000000000000000000000000000000000000000000000000000000
    else if k == 32 then 0x2000000000000000000000000000000000000000000000000000000000000000000000000000000000000000000000000000000000000000000000000000000000000000000000000000000000000000000000000000000000000000000000000000000000000000000000
    else if k == 33 then 0x10000000000000000000000000000000000000000000000000000000000000000000000000000000000000000000000000000000000000000000000000000000000000000000000000000000000000000000000000000000000000000000000000000000000000000000000000000
    else if k == 34 then 0x80000000000000000000000000000000000000000000000000000000000000000000000000000000000000000000000000000000000000000000000000000000000000000000000000000000000000000000000000000000000000000000000000000000000000000000000000000000000
    else if k == 35 then 0x200000000000000000000000000000000000000000000000000000000000000000000000000000000000000000000000000000000000000000000000000000000000000000000000000000000000000000000000000000000000000000000000000000000000000000000000000000000000000000
    else if k == 36 then 0x1000000000000000000000000000000000000000000000000000000000000000000000000000000000000000000000000000000000000000000000000000000000000000000000000000000000000000000000000000000000000000000000000000000000000000000000000000000000000000000000000
    else if k == 37 then 0x4000000000000000000000000000000000000000000000000000000000000000000000000000000000000000000000000000000000000000000000000000000000000000000000000000000000000000000000000000000000000000000000000000000000000000000000000000000000000000000000000000000
    else if k == 38 then 0x20000000000000000000000000000000000000000000000000000000000000000000000000000000000000000000000000000000000000000000000000000000000000000000000000000000000000000000000000000000000000000000000000000000000000000000000000000000000000000000000000000000000000
    else if k == 39 then 0x80000000000000000000000000000000000000000000000000000000000000000000000000000000000000000000000000000000000000000000000000000000000000000000000000000000000000000000000000000000000000000000000000000000000000000000000000000000000000000000000000000000000000000000
    else 0x400000000000000000000000000000000000000000000000000000000000000000000000000000000000000000000000000000000000000000000000000000000000000000000000000000000000000000000000000000000000000000000000000000000000000000000000000000000000000000000000000000000000000000000000000
  }

  lemma {:induction false} TenToIs(k: nat)
    requires k < 44
    ensures TenTo(k) == Pow10(4 + 8 * k)
  {
    if k == 0 {
      assert Pow10(4) == 10000;
    } else {
      TenToIs(k - 1);
      TenStep(k);
      Pow10Eight(4 + 8 * (k - 1));
    }
  }

  lemma TenStep(k: nat)
    requires 0 < k < 44
    ensures TenTo(k) == 100000000 * TenTo(k - 1)
  {
  }

  lemma Pow10Eight(n: nat)
    ensures Pow10(n + 8) == 100000000 * Pow10(n)
  {
    Pow10Add(8, n);
    assert Pow10(8) == 100000000;
  }

  /** Neighbouring entries are 26 or 27 binary digits apart. */
  lemma ExponentStep(k: nat)
    requires k + 1 < ENTRIES
    ensures 26 <= Exponent(k + 1) - Exponent(k) <= 27
  {
    if k < 45 { TwoMinusStep(k); } else if k > 45 { TwoStep(k - 45); }
  }

  lemma NegativeExponents(k: nat)
    requires k < ENTRIES
    ensures k < 46 ==> -1220 <= Exponent(k) < 0
    ensures k >= 46 ==> 0 <= Exponent(k) <= 1066
  {
  }

  lemma TwoMinusStep(k: nat)
    requires k < 45
    ensures Exponent(k + 1) - Exponent(k) == 26 || Exponent(k + 1) - Exponent(k) == 27
    ensures TwoToMinus(k) == (if Exponent(k + 1) - Exponent(k) == 26 then 0x400_0000 else 0x800_0000) *
      TwoToMinus(k + 1)
  {
  }

  lemma TwoStep(k: nat)
    requires 0 < k < 41
    ensures Exponent(k + 46) - Exponent(k + 45) == 26 || Exponent(k + 46) - Exponent(k + 45) == 27
    ensures TwoTo(k) == (if Exponent(k + 46) - Exponent(k + 45) == 26 then 0x400_0000 else 0x800_0000) * TwoTo(k - 1)
  {
  }

  lemma Pow2Steps(n: nat)
    ensures Pow2(n + 26) == 0x400_0000 * Pow2(n) && Pow2(n + 27) == 0x800_0000 * Pow2(n)
  {
    SmallPowers();
    Pow2AddKnown(26, 0x400_0000, n);
    assert Pow2(n + 27) == 2 * Pow2(n + 26);
  }

  lemma Pow2AddKnown(m: nat, v: nat, n: nat)
    requires Pow2(m) == v
    ensures Pow2(n + m) == v * Pow2(n)
  {
    Pow2Add(m, n);
  }

  lemma SmallPowers()
    ensures Pow2(3) == 8 && Pow2(24) == 0x100_0000 && Pow2(26) == 0x400_0000
  {
    assert Pow2(3) == 8;
    assert Pow2(6) == 0x40;
    Pow2Double(3, 8); Pow2Double(6, 0x40); Pow2Double(12, 0x1000); Pow2Double(13, 0x2000);
  }

  lemma {:induction false} TwoToMinusIs(k: nat)
    requires k < 46
    ensures Exponent(k) < 0 && TwoToMinus(k) == Pow2(-Exponent(k))
    decreases 45 - k
  {
    NegativeExponents(k);
    if k == 45 {
      SmallPowers();
    } else {
      TwoToMinusIs(k + 1);
      TwoMinusStep(k);
      Pow2Steps(-Exponent(k + 1));
    }
  }

  lemma {:induction false} TwoToIs(k: nat)
    requires k < 41
    ensures Exponent(k + 46) >= 0 && TwoTo(k) == Pow2(Exponent(k + 46))
  {
    NegativeExponents(k + 46);
    if k == 0 {
      SmallPowers();
    } else {
      TwoToIs(k - 1);
      TwoStep(k);
      Pow2Steps(Exponent(k + 45));
    }
  }

  /** The comparison itself, on exact integers: 87 of them. */
  lemma HalfUnitNegative(k: nat)
    requires k < 44
    ensures 2 * Abs(Frac(k) * TenTo(43 - k) - TwoToMinus(k)) <= TenTo(43 - k)
  {
  }

  lemma HalfUnitExact(k: nat)
    requires 44 <= k < 46
    ensures Frac(k) == TenTo(k - 44) * TwoToMinus(k)
  {
  }

  lemma HalfUnitPositive(k: nat)
    requires k < 41
    ensures 2 * Abs(Frac(k + 46) * TwoTo(k) - TenTo(k + 2)) <= TwoTo(k)
  {
  }

  lemma FracNormalised(k: nat)
    requires k < ENTRIES
    ensures B63 <= Frac(k) < B64
  {
  }

  // ----- accuracy of the table

  ghost predicate HalfUlp(f: int, q: int, k: int) {
    WithinHalf(f as real, P2(q), P10(k))
  }

  /** f units of p are within half a unit of t. */
  ghost predicate WithinHalf(f: real, p: real, t: real) {
    2.0 * (f * p) - p <= 2.0 * t <= 2.0 * (f * p) + p
  }

  /** Every entry is the nearest 64-bit multiple of its power of two. */
  lemma Accurate(k: nat)
    requires k < ENTRIES
    ensures HalfUlp(Frac(k), Exponent(k), TenPower(k))
  {
    if k < 44 {
      AccurateNegative(k);
    } else if k < 46 {
      AccurateExact(k);
    } else {
      AccuratePositive(k);
    }
  }

  lemma AccurateNegative(k: nat)
    requires k < 44
    ensures HalfUlp(Frac(k), Exponent(k), TenPower(k))
  {
    HalfUnitNegative(k);
    TenToIs(43 - k); TwoToMinusIs(k);
    BothNegative(Frac(k), Exponent(k), TenPower(k), TenTo(43 - k), TwoToMinus(k));
  }

  lemma AccurateExact(k: nat)
    requires 44 <= k < 46
    ensures HalfUlp(Frac(k), Exponent(k), TenPower(k))
  {
    HalfUnitExact(k);
    TenToIs(k - 44); TwoToMinusIs(k);
    OneNegative(Frac(k), Exponent(k), TenPower(k), TenTo(k - 44), TwoToMinus(k));
  }

  lemma AccuratePositive(k: nat)
    requires 46 <= k < ENTRIES
    ensures HalfUlp(Frac(k), Exponent(k), TenPower(k))
  {
    HalfUnitPositive(k - 46);
    TenToIs(k - 44); TwoToIs(k - 46);
    BothPositive(Frac(k), Exponent(k), TenPower(k), TenTo(k - 44), TwoTo(k - 46));
  }

  lemma BothNegative(f: nat, q: int, k: int, a: nat, b: nat)
    requires q < 0 && k < 0 && a == Pow10(-k) && b == Pow2(-q) && 2 * Abs(f * a - b) <= a
    ensures HalfUlp(f, q, k)
  {
    Inverse10(k, a);
    Inverse2(q, b);
    var x := IntToReal(f, a, b);
    FromNegative(f as real, a as real, b as real, P10(k), P2(q), x);
  }

  lemma OneNegative(f: nat, q: int, k: int, t: nat, b: nat)
    requires q < 0 <= k && t == Pow10(k) && b == Pow2(-q) && f == t * b
    ensures HalfUlp(f, q, k)
  {
    P10OfNat(k); Inverse2(q, b);
    FromExact(f, t, b, P2(q));
  }

  lemma Inverse10(k: int, a: nat)
    requires k < 0 && a == Pow10(-k)
    ensures Product(P10(k), a as real, 1.0)
  {
    P10OfNat(-k);
    P10Add(k, -k);
  }

  lemma Inverse2(q: int, b: nat)
    requires q < 0 && b == Pow2(-q)
    ensures Product(P2(q), b as real, 1.0)
  {
    P2OfNat(-q);
    P2Add(q, -q);
  }

  lemma BothPositive(f: nat, q: int, k: int, t: nat, b: nat)
    requires q >= 0 && k >= 0 && t == Pow10(k) && b == Pow2(q) && 2 * Abs(f * b - t) <= b
    ensures HalfUlp(f, q, k)
  {
    P10OfNat(k); P2OfNat(q);
    FromPositive(f, t, b);
  }

  lemma IntToReal(f: nat, a: nat, b: nat) returns (x: real)
    requires 2 * Abs(f * a - b) <= a
    ensures Product(f as real, a as real, x) && 2.0 * x - a as real <= 2.0 * b as real <= 2.0 * x + a as real
  {
    x := (f * a) as real;
    assert x == f as real * a as real;
  }

  lemma FromNegative(f: real, a: real, b: real, t: real, p: real, x: real)
    requires Product(f, a, x) && 2.0 * x - a <= 2.0 * b <= 2.0 * x + a
    requires Product(t, a, 1.0) && Product(p, b, 1.0) && t > 0.0 && p > 0.0
    ensures WithinHalf(f, p, t)
  {
    var c := Common(a, b, t, p);
    var y := f * p;
    Carried(f, a, c, p, x, y);
    Bounds(2.0 * x - a, 2.0 * b, 2.0 * x + a, c);
    Expand(x, a, b, c);
  }

  /** A factor that takes a to p and b to t. */
  lemma Common(a: real, b: real, t: real, p: real) returns (c: real)
    requires Product(t, a, 1.0) && Product(p, b, 1.0) && t > 0.0 && p > 0.0
    ensures Product(a, c, p) && Product(b, c, t) && c > 0.0
  {
    c := t * p;
    assert a * c == (t * a) * p;
    assert b * c == (p * b) * t;
  }

  lemma Carried(f: real, a: real, c: real, p: real, x: real, y: real)
    requires Product(f, a, x) && Product(a, c, p) && Product(f, p, y)
    ensures Product(x, c, y)
  {
    assert (f * a) * c == f * (a * c);
  }

  lemma Expand(x: real, a: real, b: real, c: real)
    ensures (2.0 * x - a) * c == 2.0 * (x * c) - a * c && (2.0 * x + a) * c == 2.0 * (x * c) + a * c
    ensures 2.0 * b * c == 2.0 * (b * c)
  {
  }

  lemma Bounds(x: real, y: real, z: real, c: real)
    requires x <= y <= z && c > 0.0
    ensures x * c <= y * c <= z * c
  {
    RMono(x, y, c);
    RMono(y, z, c);
  }

  lemma FromExact(f: nat, t: nat, b: nat, p: real)
    requires f == t * b && Product(p, b as real, 1.0) && p > 0.0
    ensures WithinHalf(f as real, p, t as real)
  {
    assert f as real == t as real * b as real;
    assert f as real * p == t as real * (p * b as real);
  }

  lemma FromPositive(f: nat, t: nat, b: nat)
    requires 2 * Abs(f * b - t) <= b
    ensures WithinHalf(f as real, b as real, t as real)
  {
    assert (f * b) as real == f as real * b as real;
  }

  // ----- the search

  /** C's conversion of a double to int: toward zero. */
  function Truncate(x: real): int { if x >= 0.0 then x.Floor else -((-x).Floor) }

  ghost function ExactProduct(exp: int): real { -(exp + ENTRIES) as real * 0.30102999566398114 }

  /** The product in double arithmetic: rounding moves it by far less than 1, and nothing
      else is known of it. */
  method Approximate(exp: int) returns (product: real)
    ensures -1.0 < product - ExactProduct(exp) < 1.0
  {
    product := -(exp + ENTRIES) as real * 0.30102999566398114;
  }

  /** Where the search starts. */
  method StartIndex(exp: int) returns (start: nat)
    requires -1137 <= exp <= 960  // the exponents of normalised doubles
    ensures start < ENTRIES
  {
    var product := Approximate(exp);
    StartInTable(exp, product);
    var approx := Truncate(product);
    start := (approx - FIRST_POWER) / STEP;
  }

  lemma StartInTable(exp: int, product: real)
    requires -1137 <= exp <= 960 && -1.0 < product - ExactProduct(exp) < 1.0
    ensures -348 <= Truncate(product) <= 340
  {
    assert -317.0 <= ExactProduct(exp) <= 317.0;
  }

  /** The power brings the exponent into the window. */
  predicate InWindow(exp: int, idx: nat)
    requires idx < ENTRIES
  {
    EXP_MIN <= exp + Exponent(idx) + 64 <= EXP_MAX
  }

  /** No power from `start` on was passed over on the way to `idx`. */
  ghost predicate NonePassed(exp: int, start: nat, idx: nat) {
    forall j: nat :: j < ENTRIES && (start <= j < idx || idx < j <= start) ==> !InWindow(exp, j)
  }

  /** `find_cachedpow10`: wherever the search starts, it stays in the table, does not turn
      round, and stops at the first power that will do. */
  method FindCachedPow10(exp: int, start: nat) returns (idx: nat, k: int)
    requires -1137 <= exp <= 960 && start < ENTRIES
    ensures idx < ENTRIES && k == TenPower(idx)
    ensures InWindow(exp, idx) && NonePassed(exp, start, idx)
  {
    idx := start;
    while true
      invariant idx < ENTRIES && NonePassed(exp, start, idx)
      decreases Distance(exp, idx)
    {
      var current := exp + Exponent(idx) + 64;
      if current < EXP_MIN {
        Forward(exp, start, idx);
        idx := idx + 1;
        continue;
      }
      if current > EXP_MAX {
        Backward(exp, start, idx);
        idx := idx - 1;
        continue;
      }
      k := FIRST_POWER + idx * STEP;
      return;
    }
  }

  /** Entries left in the direction in which the search goes on. */
  ghost function Distance(exp: int, idx: nat): nat
    requires idx < ENTRIES
  {
    var current := exp + Exponent(idx) + 64;
    if current < EXP_MIN then ENTRIES - idx else if current > EXP_MAX then idx + 1 else 0
  }

  lemma Forward(exp: int, start: nat, idx: nat)
    requires -1137 <= exp <= 960 && idx < ENTRIES && exp + Exponent(idx) + 64 < EXP_MIN && NonePassed(exp, start, idx)
    ensures idx + 1 < ENTRIES && NonePassed(exp, start, idx + 1) && Distance(exp, idx + 1) < Distance(exp, idx)
  {
    TableEnds(exp, idx);
    ExponentStep(idx);
  }

  lemma Backward(exp: int, start: nat, idx: nat)
    requires -1137 <= exp <= 960 && idx < ENTRIES && exp + Exponent(idx) + 64 > EXP_MAX && NonePassed(exp, start, idx)
    ensures idx > 0 && NonePassed(exp, start, idx - 1) && Distance(exp, idx - 1) < Distance(exp, idx)
  {
    TableEnds(exp, idx);
    ExponentStep(idx - 1);
  }

  lemma TableEnds(exp: int, idx: nat)
    requires -1137 <= exp <= 960 && idx < ENTRIES
    ensures exp + Exponent(idx) + 64 < EXP_MIN ==> idx + 1 < ENTRIES
    ensures exp + Exponent(idx) + 64 > EXP_MAX ==> idx > 0
  {
  }
}
