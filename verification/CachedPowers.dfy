/** The table of cached powers of ten: each entry is within half a unit of the exact power. */
module CachedPowers {
  import opened Powers
  import opened DiyFps
  import opened Options

  datatype CachedPower = CachedPower(f: uint64, e: int, k: int)

  const MIN_DEC_EXP: int := -300
  const DEC_STEP: int := 8
  const ALPHA: int := -60
  const GAMMA: int := -32
  const TABLE_SIZE: int := 79

  /** |x - y| is at most u/2. */
  predicate WithinHalf(x: int, y: int, u: int)
  {
    -u <= 2 * (x - y) <= u
  }

  predicate Near(f: int, unit: int, x: int)
  {
    WithinHalf(f * unit, x, unit)
  }

  /** f * 2^e is within half a unit (2^e / 2) of 10^k, cross-multiplied so that only whole numbers occur. */
  ghost predicate Accurate(c: CachedPower)
  {
    if 0 <= c.e then 0 <= c.k && Near(c.f, Pow(2, c.e), Pow(10, c.k))
    else if 0 <= c.k then Near(c.f, 1, Pow(10, c.k) * Pow(2, -c.e))
    else Near(c.f, Pow(10, -c.k), Pow(2, -c.e))
  }

  /** The significand is normalized, and the exponents are those of the entry at this position. */
  predicate AsDocumented(c: CachedPower, index: nat)
  {
    && TWO_TO_THE_63 <= c.f
    && c.k == MIN_DEC_EXP + DEC_STEP * index && c.e == c.k * 217706 / 65536 - 63
  }

  function Above(f: uint64, e: int, k: int): (c: CachedPower)
    requires 0 <= e && 0 <= k && WithinHalf(f * Pow(2, e), Pow(10, k), Pow(2, e))
    ensures Accurate(c)
  {
    CachedPower(f, e, k)
  }

  function Below(f: uint64, e: int, k: int): (c: CachedPower)
    requires e < 0 && k < 0 && WithinHalf(f * Pow(10, -k), Pow(2, -e), Pow(10, -k))
    ensures Accurate(c)
  {
    CachedPower(f, e, k)
  }

  function Exact(f: uint64, e: int, k: int): (c: CachedPower)
    requires e < 0 <= k && f == Pow(10, k) * Pow(2, -e)
    ensures Accurate(c)
  {
    CachedPower(f, e, k)
  }

  lemma Steps(n: nat)
    ensures Pow(10, n + 8) == 1_0000_0000 * Pow(10, n)
    ensures Pow(2, n + 26) == 0x400_0000 * Pow(2, n)
    ensures Pow(2, n + 27) == 0x800_0000 * Pow(2, n)
  {
    PowAdd(10, n, 8);
    assert Pow(10, 8) == 1_0000_0000;
    PowAdd(2, n, 26);
    PowAdd(2, 13, 13);
    assert Pow(2, 13) == 0x2000;
    assert Pow(2, n + 27) == 2 * Pow(2, n + 26);
  }

  lemma StartValues()
    ensures Pow(10, 4) == 1_0000 && Pow(10, 12) == 1_0000_0000_0000 && Pow(10, 20) == 1_0000_0000_0000_0000_0000
    ensures Pow(2, 3) == 8 && Pow(2, 24) == 0x100_0000 && Pow(2, 50) == 0x4_0000_0000_0000
    ensures Pow(2, 77) == 0x2000_0000_0000_0000_0000
  {
    assert Pow(10, 4) == 1_0000;
    assert Pow(2, 3) == 8 && Pow(2, 11) == 0x800 && Pow(2, 13) == 0x2000;
    hide Pow;
    PowAdd(2, 13, 11);
    Steps(4);
    Steps(12);
    Steps(24);
    Steps(50);
  }

  /** Links each power of ten and two the table needs to the one before it. */
  lemma TensTo172()
    ensures Pow(10, 28) == 1_0000_0000 * Pow(10, 20) && Pow(10, 36) == 1_0000_0000 * Pow(10, 28)
    ensures Pow(10, 44) == 1_0000_0000 * Pow(10, 36) && Pow(10, 52) == 1_0000_0000 * Pow(10, 44)
    ensures Pow(10, 60) == 1_0000_0000 * Pow(10, 52) && Pow(10, 68) == 1_0000_0000 * Pow(10, 60)
    ensures Pow(10, 76) == 1_0000_0000 * Pow(10, 68) && Pow(10, 84) == 1_0000_0000 * Pow(10, 76)
    ensures Pow(10, 92) == 1_0000_0000 * Pow(10, 84) && Pow(10, 100) == 1_0000_0000 * Pow(10, 92)
    ensures Pow(10, 108) == 1_0000_0000 * Pow(10, 100) && Pow(10, 116) == 1_0000_0000 * Pow(10, 108)
    ensures Pow(10, 124) == 1_0000_0000 * Pow(10, 116) && Pow(10, 132) == 1_0000_0000 * Pow(10, 124)
    ensures Pow(10, 140) == 1_0000_0000 * Pow(10, 132) && Pow(10, 148) == 1_0000_0000 * Pow(10, 140)
    ensures Pow(10, 156) == 1_0000_0000 * Pow(10, 148) && Pow(10, 164) == 1_0000_0000 * Pow(10, 156)
    ensures Pow(10, 172) == 1_0000_0000 * Pow(10, 164)
  {
    hide Pow;
    Steps(20); Steps(28); Steps(36); Steps(44); Steps(52); Steps(60); Steps(68); Steps(76);
    Steps(84); Steps(92); Steps(100); Steps(108); Steps(116); Steps(124); Steps(132); Steps(140);
    Steps(148); Steps(156); Steps(164);
  }

  lemma TensTo324()
    ensures Pow(10, 180) == 1_0000_0000 * Pow(10, 172) && Pow(10, 188) == 1_0000_0000 * Pow(10, 180)
    ensures Pow(10, 196) == 1_0000_0000 * Pow(10, 188) && Pow(10, 204) == 1_0000_0000 * Pow(10, 196)
    ensures Pow(10, 212) == 1_0000_0000 * Pow(10, 204) && Pow(10, 220) == 1_0000_0000 * Pow(10, 212)
    ensures Pow(10, 228) == 1_0000_0000 * Pow(10, 220) && Pow(10, 236) == 1_0000_0000 * Pow(10, 228)
    ensures Pow(10, 244) == 1_0000_0000 * Pow(10, 236) && Pow(10, 252) == 1_0000_0000 * Pow(10, 244)
    ensures Pow(10, 260) == 1_0000_0000 * Pow(10, 252) && Pow(10, 268) == 1_0000_0000 * Pow(10, 260)
    ensures Pow(10, 276) == 1_0000_0000 * Pow(10, 268) && Pow(10, 284) == 1_0000_0000 * Pow(10, 276)
    ensures Pow(10, 292) == 1_0000_0000 * Pow(10, 284) && Pow(10, 300) == 1_0000_0000 * Pow(10, 292)
    ensures Pow(10, 308) == 1_0000_0000 * Pow(10, 300) && Pow(10, 316) == 1_0000_0000 * Pow(10, 308)
    ensures Pow(10, 324) == 1_0000_0000 * Pow(10, 316)
  {
    hide Pow;
    Steps(172); Steps(180); Steps(188); Steps(196); Steps(204); Steps(212); Steps(220); Steps(228);
    Steps(236); Steps(244); Steps(252); Steps(260); Steps(268); Steps(276); Steps(284); Steps(292);
    Steps(300); Steps(308); Steps(316);
  }

  lemma TwosTo508()
    ensures Pow(2, 30) == 0x800_0000 * Pow(2, 3) && Pow(2, 56) == 0x400_0000 * Pow(2, 30)
    ensures Pow(2, 83) == 0x800_0000 * Pow(2, 56) && Pow(2, 109) == 0x400_0000 * Pow(2, 83)
    ensures Pow(2, 136) == 0x800_0000 * Pow(2, 109) && Pow(2, 162) == 0x400_0000 * Pow(2, 136)
    ensures Pow(2, 189) == 0x800_0000 * Pow(2, 162) && Pow(2, 216) == 0x800_0000 * Pow(2, 189)
    ensures Pow(2, 242) == 0x400_0000 * Pow(2, 216) && Pow(2, 269) == 0x800_0000 * Pow(2, 242)
    ensures Pow(2, 295) == 0x400_0000 * Pow(2, 269) && Pow(2, 322) == 0x800_0000 * Pow(2, 295)
    ensures Pow(2, 348) == 0x400_0000 * Pow(2, 322) && Pow(2, 375) == 0x800_0000 * Pow(2, 348)
    ensures Pow(2, 402) == 0x800_0000 * Pow(2, 375) && Pow(2, 428) == 0x400_0000 * Pow(2, 402)
    ensures Pow(2, 455) == 0x800_0000 * Pow(2, 428) && Pow(2, 481) == 0x400_0000 * Pow(2, 455)
    ensures Pow(2, 508) == 0x800_0000 * Pow(2, 481)
  {
    hide Pow;
    Steps(3); Steps(30); Steps(56); Steps(83); Steps(109); Steps(136); Steps(162); Steps(189);
    Steps(216); Steps(242); Steps(269); Steps(295); Steps(322); Steps(348); Steps(375); Steps(402);
    Steps(428); Steps(455); Steps(481);
  }

  lemma TwosTo1013()
    ensures Pow(2, 534) == 0x400_0000 * Pow(2, 508) && Pow(2, 561) == 0x800_0000 * Pow(2, 534)
    ensures Pow(2, 588) == 0x800_0000 * Pow(2, 561) && Pow(2, 614) == 0x400_0000 * Pow(2, 588)
    ensures Pow(2, 641) == 0x800_0000 * Pow(2, 614) && Pow(2, 667) == 0x400_0000 * Pow(2, 641)
    ensures Pow(2, 694) == 0x800_0000 * Pow(2, 667) && Pow(2, 720) == 0x400_0000 * Pow(2, 694)
    ensures Pow(2, 747) == 0x800_0000 * Pow(2, 720) && Pow(2, 774) == 0x800_0000 * Pow(2, 747)
    ensures Pow(2, 800) == 0x400_0000 * Pow(2, 774) && Pow(2, 827) == 0x800_0000 * Pow(2, 800)
    ensures Pow(2, 853) == 0x400_0000 * Pow(2, 827) && Pow(2, 880) == 0x800_0000 * Pow(2, 853)
    ensures Pow(2, 907) == 0x800_0000 * Pow(2, 880) && Pow(2, 933) == 0x400_0000 * Pow(2, 907)
    ensures Pow(2, 960) == 0x800_0000 * Pow(2, 933) && Pow(2, 986) == 0x400_0000 * Pow(2, 960)
    ensures Pow(2, 1013) == 0x800_0000 * Pow(2, 986)
  {
    hide Pow;
    Steps(508); Steps(534); Steps(561); Steps(588); Steps(614); Steps(641); Steps(667); Steps(694);
    Steps(720); Steps(747); Steps(774); Steps(800); Steps(827); Steps(853); Steps(880); Steps(907);
    Steps(933); Steps(960); Steps(986);
  }

  lemma BelowTensTo156()
    ensures Pow(10, 12) == 1_0000_0000 * Pow(10, 4) && Pow(10, 20) == 1_0000_0000 * Pow(10, 12)
    ensures Pow(10, 28) == 1_0000_0000 * Pow(10, 20) && Pow(10, 36) == 1_0000_0000 * Pow(10, 28)
    ensures Pow(10, 44) == 1_0000_0000 * Pow(10, 36) && Pow(10, 52) == 1_0000_0000 * Pow(10, 44)
    ensures Pow(10, 60) == 1_0000_0000 * Pow(10, 52) && Pow(10, 68) == 1_0000_0000 * Pow(10, 60)
    ensures Pow(10, 76) == 1_0000_0000 * Pow(10, 68) && Pow(10, 84) == 1_0000_0000 * Pow(10, 76)
    ensures Pow(10, 92) == 1_0000_0000 * Pow(10, 84) && Pow(10, 100) == 1_0000_0000 * Pow(10, 92)
    ensures Pow(10, 108) == 1_0000_0000 * Pow(10, 100) && Pow(10, 116) == 1_0000_0000 * Pow(10, 108)
    ensures Pow(10, 124) == 1_0000_0000 * Pow(10, 116) && Pow(10, 132) == 1_0000_0000 * Pow(10, 124)
    ensures Pow(10, 140) == 1_0000_0000 * Pow(10, 132) && Pow(10, 148) == 1_0000_0000 * Pow(10, 140)
    ensures Pow(10, 156) == 1_0000_0000 * Pow(10, 148)
  {
    hide Pow;
    Steps(4); Steps(12); Steps(20); Steps(28); Steps(36); Steps(44); Steps(52); Steps(60);
    Steps(68); Steps(76); Steps(84); Steps(92); Steps(100); Steps(108); Steps(116); Steps(124);
    Steps(132); Steps(140); Steps(148);
  }

  lemma BelowTensTo300()
    ensures Pow(10, 164) == 1_0000_0000 * Pow(10, 156) && Pow(10, 172) == 1_0000_0000 * Pow(10, 164)
    ensures Pow(10, 180) == 1_0000_0000 * Pow(10, 172) && Pow(10, 188) == 1_0000_0000 * Pow(10, 180)
    ensures Pow(10, 196) == 1_0000_0000 * Pow(10, 188) && Pow(10, 204) == 1_0000_0000 * Pow(10, 196)
    ensures Pow(10, 212) == 1_0000_0000 * Pow(10, 204) && Pow(10, 220) == 1_0000_0000 * Pow(10, 212)
    ensures Pow(10, 228) == 1_0000_0000 * Pow(10, 220) && Pow(10, 236) == 1_0000_0000 * Pow(10, 228)
    ensures Pow(10, 244) == 1_0000_0000 * Pow(10, 236) && Pow(10, 252) == 1_0000_0000 * Pow(10, 244)
    ensures Pow(10, 260) == 1_0000_0000 * Pow(10, 252) && Pow(10, 268) == 1_0000_0000 * Pow(10, 260)
    ensures Pow(10, 276) == 1_0000_0000 * Pow(10, 268) && Pow(10, 284) == 1_0000_0000 * Pow(10, 276)
    ensures Pow(10, 292) == 1_0000_0000 * Pow(10, 284) && Pow(10, 300) == 1_0000_0000 * Pow(10, 292)
  {
    hide Pow;
    Steps(156); Steps(164); Steps(172); Steps(180); Steps(188); Steps(196); Steps(204); Steps(212);
    Steps(220); Steps(228); Steps(236); Steps(244); Steps(252); Steps(260); Steps(268); Steps(276);
    Steps(284); Steps(292);
  }

  lemma BelowTwosTo582()
    ensures Pow(2, 103) == 0x400_0000 * Pow(2, 77) && Pow(2, 130) == 0x800_0000 * Pow(2, 103)
    ensures Pow(2, 157) == 0x800_0000 * Pow(2, 130) && Pow(2, 183) == 0x400_0000 * Pow(2, 157)
    ensures Pow(2, 210) == 0x800_0000 * Pow(2, 183) && Pow(2, 236) == 0x400_0000 * Pow(2, 210)
    ensures Pow(2, 263) == 0x800_0000 * Pow(2, 236) && Pow(2, 289) == 0x400_0000 * Pow(2, 263)
    ensures Pow(2, 316) == 0x800_0000 * Pow(2, 289) && Pow(2, 343) == 0x800_0000 * Pow(2, 316)
    ensures Pow(2, 369) == 0x400_0000 * Pow(2, 343) && Pow(2, 396) == 0x800_0000 * Pow(2, 369)
    ensures Pow(2, 422) == 0x400_0000 * Pow(2, 396) && Pow(2, 449) == 0x800_0000 * Pow(2, 422)
    ensures Pow(2, 475) == 0x400_0000 * Pow(2, 449) && Pow(2, 502) == 0x800_0000 * Pow(2, 475)
    ensures Pow(2, 529) == 0x800_0000 * Pow(2, 502) && Pow(2, 555) == 0x400_0000 * Pow(2, 529)
    ensures Pow(2, 582) == 0x800_0000 * Pow(2, 555)
  {
    hide Pow;
    Steps(77); Steps(103); Steps(130); Steps(157); Steps(183); Steps(210); Steps(236); Steps(263);
    Steps(289); Steps(316); Steps(343); Steps(369); Steps(396); Steps(422); Steps(449); Steps(475);
    Steps(502); Steps(529); Steps(555);
  }

  lemma BelowTwosTo1060()
    ensures Pow(2, 608) == 0x400_0000 * Pow(2, 582) && Pow(2, 635) == 0x800_0000 * Pow(2, 608)
    ensures Pow(2, 661) == 0x400_0000 * Pow(2, 635) && Pow(2, 688) == 0x800_0000 * Pow(2, 661)
    ensures Pow(2, 715) == 0x800_0000 * Pow(2, 688) && Pow(2, 741) == 0x400_0000 * Pow(2, 715)
    ensures Pow(2, 768) == 0x800_0000 * Pow(2, 741) && Pow(2, 794) == 0x400_0000 * Pow(2, 768)
    ensures Pow(2, 821) == 0x800_0000 * Pow(2, 794) && Pow(2, 847) == 0x400_0000 * Pow(2, 821)
    ensures Pow(2, 874) == 0x800_0000 * Pow(2, 847) && Pow(2, 901) == 0x800_0000 * Pow(2, 874)
    ensures Pow(2, 927) == 0x400_0000 * Pow(2, 901) && Pow(2, 954) == 0x800_0000 * Pow(2, 927)
    ensures Pow(2, 980) == 0x400_0000 * Pow(2, 954) && Pow(2, 1007) == 0x800_0000 * Pow(2, 980)
    ensures Pow(2, 1034) == 0x800_0000 * Pow(2, 1007) && Pow(2, 1060) == 0x400_0000 * Pow(2, 1034)
  {
    hide Pow;
    Steps(582); Steps(608); Steps(635); Steps(661); Steps(688); Steps(715); Steps(741); Steps(768);
    Steps(794); Steps(821); Steps(847); Steps(874); Steps(901); Steps(927); Steps(954); Steps(980);
    Steps(1007); Steps(1034);
  }

  /** The entries with k >= 0. */
  function UpperEntry(index: nat): (c: CachedPower)
    requires 38 <= index < 58
    ensures Accurate(c) && AsDocumented(c, index)
  {
    hide Pow, Accurate;
    StartValues();
    TensTo172();
    TwosTo508();
    match index
    case 38 => Exact(0x9C40_0000_0000_0000,   -50,    4)
    case 39 => Exact(0xE8D4_A510_0000_0000,   -24,   12)
    case 40 => Above(0xAD78_EBC5_AC62_0000,     3,   20)
    case 41 => Above(0x813F_3978_F894_0984,    30,   28)
    case 42 => Above(0xC097_CE7B_C907_15B3,    56,   36)
    case 43 => Above(0x8F7E_32CE_7BEA_5C70,    83,   44)
    case 44 => Above(0xD5D2_38A4_ABE9_8068,   109,   52)
    case 45 => Above(0x9F4F_2726_179A_2245,   136,   60)
    case 46 => Above(0xED63_A231_D4C4_FB27,   162,   68)
    case 47 => Above(0xB0DE_6538_8CC8_ADA8,   189,   76)
    case 48 => Above(0x83C7_088E_1AAB_65DB,   216,   84)
    case 49 => Above(0xC45D_1DF9_4271_1D9A,   242,   92)
    case 50 => Above(0x924D_692C_A61B_E758,   269,  100)
    case 51 => Above(0xDA01_EE64_1A70_8DEA,   295,  108)
    case 52 => Above(0xA26D_A399_9AEF_774A,   322,  116)
    case 53 => Above(0xF209_787B_B47D_6B85,   348,  124)
    case 54 => Above(0xB454_E4A1_79DD_1877,   375,  132)
    case 55 => Above(0x865B_8692_5B9B_C5C2,   402,  140)
    case 56 => Above(0xC835_53C5_C896_5D3D,   428,  148)
    case 57 => Above(0x952A_B45C_FA97_A0B3,   455,  156)
  }

  function HighestEntry(index: nat): (c: CachedPower)
    requires 58 <= index < TABLE_SIZE
    ensures Accurate(c) && AsDocumented(c, index)
  {
    hide Pow, Accurate;
    StartValues();
    TensTo172();
    TensTo324();
    TwosTo508();
    TwosTo1013();
    match index
    case 58 => Above(0xDE46_9FBD_99A0_5FE3,   481,  164)
    case 59 => Above(0xA59B_C234_DB39_8C25,   508,  172)
    case 60 => Above(0xF6C6_9A72_A398_9F5C,   534,  180)
    case 61 => Above(0xB7DC_BF53_54E9_BECE,   561,  188)
    case 62 => Above(0x88FC_F317_F222_41E2,   588,  196)
    case 63 => Above(0xCC20_CE9B_D35C_78A5,   614,  204)
    case 64 => Above(0x9816_5AF3_7B21_53DF,   641,  212)
    case 65 => Above(0xE2A0_B5DC_971F_303A,   667,  220)
    case 66 => Above(0xA8D9_D153_5CE3_B396,   694,  228)
    case 67 => Above(0xFB9B_7CD9_A4A7_443C,   720,  236)
    case 68 => Above(0xBB76_4C4C_A7A4_4410,   747,  244)
    case 69 => Above(0x8BAB_8EEF_B640_9C1A,   774,  252)
    case 70 => Above(0xD01F_EF10_A657_842C,   800,  260)
    case 71 => Above(0x9B10_A4E5_E991_3129,   827,  268)
    case 72 => Above(0xE710_9BFB_A19C_0C9D,   853,  276)
    case 73 => Above(0xAC28_20D9_623B_F429,   880,  284)
    case 74 => Above(0x8044_4B5E_7AA7_CF85,   907,  292)
    case 75 => Above(0xBF21_E440_03AC_DD2D,   933,  300)
    case 76 => Above(0x8E67_9C2F_5E44_FF8F,   960,  308)
    case 77 => Above(0xD433_179D_9C8C_B841,   986,  316)
    case 78 => Above(0x9E19_DB92_B4E3_1BA9,  1013,  324)
  }

  /** The entries with k < 0. */
  function LowerEntry(index: nat): (c: CachedPower)
    requires 19 <= index < 38
    ensures Accurate(c) && AsDocumented(c, index)
  {
    hide Pow, Accurate;
    StartValues();
    BelowTensTo156();
    BelowTwosTo582();
    match index
    case 19 => Below(0xA3AB_6658_0D5F_DAF6,  -555, -148)
    case 20 => Below(0xF3E2_F893_DEC3_F126,  -529, -140)
    case 21 => Below(0xB5B5_ADA8_AAFF_80B8,  -502, -132)
    case 22 => Below(0x8762_5F05_6C7C_4A8B,  -475, -124)
    case 23 => Below(0xC9BC_FF60_34C1_3053,  -449, -116)
    case 24 => Below(0x964E_858C_91BA_2655,  -422, -108)
    case 25 => Below(0xDFF9_7724_7029_7EBD,  -396, -100)
    case 26 => Below(0xA6DF_BD9F_B8E5_B88F,  -369,  -92)
    case 27 => Below(0xF8A9_5FCF_8874_7D94,  -343,  -84)
    case 28 => Below(0xB944_7093_8FA8_9BCF,  -316,  -76)
    case 29 => Below(0x8A08_F0F8_BF0F_156B,  -289,  -68)
    case 30 => Below(0xCDB0_2555_6531_31B6,  -263,  -60)
    case 31 => Below(0x993F_E2C6_D07B_7FAC,  -236,  -52)
    case 32 => Below(0xE45C_10C4_2A2B_3B06,  -210,  -44)
    case 33 => Below(0xAA24_2499_6973_92D3,  -183,  -36)
    case 34 => Below(0xFD87_B5F2_8300_CA0E,  -157,  -28)
    case 35 => Below(0xBCE5_0864_9211_1AEB,  -130,  -20)
    case 36 => Below(0x8CBC_CC09_6F50_88CC,  -103,  -12)
    case 37 => Below(0xD1B7_1758_E219_652C,   -77,   -4)
  }

  function LowestEntry(index: nat): (c: CachedPower)
    requires index < 19
    ensures Accurate(c) && AsDocumented(c, index)
  {
    hide Pow, Accurate;
    StartValues();
    BelowTensTo156();
    BelowTensTo300();
    BelowTwosTo582();
    BelowTwosTo1060();
    match index
    case  0 => Below(0xAB70_FE17_C79A_C6CA, -1060, -300)
    case  1 => Below(0xFF77_B1FC_BEBC_DC4F, -1034, -292)
    case  2 => Below(0xBE56_91EF_416B_D60C, -1007, -284)
    case  3 => Below(0x8DD0_1FAD_907F_FC3C,  -980, -276)
    case  4 => Below(0xD351_5C28_3155_9A83,  -954, -268)
    case  5 => Below(0x9D71_AC8F_ADA6_C9B5,  -927, -260)
    case  6 => Below(0xEA9C_2277_23EE_8BCB,  -901, -252)
    case  7 => Below(0xAECC_4991_4078_536D,  -874, -244)
    case  8 => Below(0x823C_1279_5DB6_CE57,  -847, -236)
    case  9 => Below(0xC210_9436_4DFB_5637,  -821, -228)
    case 10 => Below(0x9096_EA6F_3848_984F,  -794, -220)
    case 11 => Below(0xD774_85CB_2582_3AC7,  -768, -212)
    case 12 => Below(0xA086_CFCD_97BF_97F4,  -741, -204)
    case 13 => Below(0xEF34_0A98_172A_ACE5,  -715, -196)
    case 14 => Below(0xB238_67FB_2A35_B28E,  -688, -188)
    case 15 => Below(0x84C8_D4DF_D2C6_3F3B,  -661, -180)
    case 16 => Below(0xC5DD_4427_1AD3_CDBA,  -635, -172)
    case 17 => Below(0x936B_9FCE_BB25_C996,  -608, -164)
    case 18 => Below(0xDBAC_6C24_7D62_A584,  -582, -156)
  }

  function Entry(index: nat): (c: CachedPower)
    requires index < TABLE_SIZE
    ensures Accurate(c) && AsDocumented(c, index)
  {
    hide *;
    if index < 19 then LowestEntry(index) else if index < 38 then LowerEntry(index)
    else if index < 58 then UpperEntry(index) else HighestEntry(index)
  }

  /** Division that truncates toward zero, as the source's integer division does. */
  function TruncatingDivision(a: int, b: int): int
    requires 0 < b
  {
    if 0 <= a then a / b else -(-a / b)
  }

  /** The position in the table the source computes for a binary exponent. */
  function IndexForBinaryExponent(e: int): int
  {
    var f := ALPHA - e - 1;
    var k := TruncatingDivision(f * 78913, 0x4_0000) + if 0 < f then 1 else 0;
    TruncatingDivision(-MIN_DEC_EXP + k + (DEC_STEP - 1), DEC_STEP)
  }

  /** Whether the assertions on the position and on the exponent of the product hold. */
  predicate MeetsAssertions(e: int)
  {
    var index := IndexForBinaryExponent(e);
    0 <= index < TABLE_SIZE && ALPHA <= (MIN_DEC_EXP + DEC_STEP * index) * 217706 / 65536 - 63 + e + 64 <= GAMMA
  }

  lemma AssertionsHold(e: int)
    requires -1137 <= e <= 964
    ensures MeetsAssertions(e)
    ensures e <= 960 ==> (MIN_DEC_EXP + DEC_STEP * IndexForBinaryExponent(e)) * 217706 / 65536 + 1 + e <= GAMMA - 2
  {
    if e < -61 {
      var q := (-61 - e) * 78913 / 0x4_0000;
      var index := (q + 308) / 8;
      assert IndexForBinaryExponent(e) == index && 38 <= index < TABLE_SIZE;
      SmallExponent(e, q, index, MIN_DEC_EXP + DEC_STEP * index);
    } else {
      var q := (e + 61) * 78913 / 0x4_0000;
      var index := if q <= 307 then (307 - q) / 8 else 0;
      assert IndexForBinaryExponent(e) == index < TABLE_SIZE;
      LargeExponent(e, q, index, MIN_DEC_EXP + DEC_STEP * index);
    }
  }

  lemma SmallExponent(e: int, q: int, index: int, k: int)
    requires -1137 <= e < -61 && q * 0x4_0000 <= (-61 - e) * 78913 < (q + 1) * 0x4_0000
    requires 38 <= index < TABLE_SIZE && 8 * index <= q + 308 < 8 * index + 8 && k == 8 * index - 300
    ensures ALPHA <= k * 217706 / 65536 + 1 + e <= GAMMA - 2
  {
    LogarithmsAgree(index, k);
  }

  /** The two approximations of log_10(2) and log_2(10) are good enough for every power in the upper half of the table. */
  lemma LogarithmsAgree(index: int, k: int)
    requires 38 <= index < TABLE_SIZE && k == 8 * index - 300
    ensures k * 0x4_0000 <= (k * 217706 / 65536 + 1) * 78913
  {
    match index
    case 38 => case 39 => case 40 => case 41 => case 42 => case 43 => case 44 => case 45 =>
    case 46 => case 47 => case 48 => case 49 => case 50 => case 51 => case 52 => case 53 =>
    case 54 => case 55 => case 56 => case 57 => case 58 => case 59 => case 60 => case 61 =>
    case 62 => case 63 => case 64 => case 65 => case 66 => case 67 => case 68 => case 69 =>
    case 70 => case 71 => case 72 => case 73 => case 74 => case 75 => case 76 => case 77 =>
    case 78 =>
  }

  lemma LargeExponent(e: int, q: int, index: int, k: int)
    requires -61 <= e <= 964 && q * 0x4_0000 <= (e + 61) * 78913 < (q + 1) * 0x4_0000
    requires 0 <= index && k == 8 * index - 300
    requires if q <= 307 then 8 * index <= 307 - q < 8 * index + 8 else index == 0
    ensures ALPHA <= k * 217706 / 65536 + 1 + e <= if e <= 960 then GAMMA - 2 else GAMMA
  {
    var p := k * 217706 / 65536;
    assert 65536 * p <= k * 217706 < 65536 * p + 65536;
    assert q <= 307 ==> -q <= k <= 7 - q;
  }

  /** Too large an exponent: the position is 0 and the product too large, or the position is negative. */
  lemma AssertionsFailAbove(e: int)
    requires 965 <= e <= 1500
    ensures !MeetsAssertions(e)
  {
    var q := (e + 61) * 78913 / 0x4_0000;
    assert 308 <= q;
    assert IndexForBinaryExponent(e) == -((q - 307) / 8);
    assert MIN_DEC_EXP * 217706 / 65536 == -997;
  }

  /** Too small an exponent: the position is behind the table. */
  lemma AssertionsFailBelow(e: int)
    requires -1500 <= e <= -1138
    ensures !MeetsAssertions(e)
  {
    var q := (-61 - e) * 78913 / 0x4_0000;
    assert 324 <= q;
    assert IndexForBinaryExponent(e) == (q + 308) / 8;
  }

  /** They do not hold for all exponents the first two assertions admit. */
  lemma AssertionsHoldExactly(e: int)
    requires -1500 <= e <= 1500
    ensures MeetsAssertions(e) <==> -1137 <= e <= 964
    ensures -1137 <= e <= 960 ==> (MIN_DEC_EXP + DEC_STEP * IndexForBinaryExponent(e)) * 217706 / 65536 + 1 + e <= GAMMA - 2
  {
    hide MeetsAssertions, IndexForBinaryExponent;
    if e < -1137 {
      AssertionsFailBelow(e);
    } else if e <= 964 {
      AssertionsHold(e);
    } else {
      AssertionsFailAbove(e);
    }
  }

  /** At the ends of the admitted range the position is not in the table. */
  lemma AssertionsFailAtTheEnds()
    ensures IndexForBinaryExponent(1500) == -20 && IndexForBinaryExponent(-1500) == 92
  {
  }

  /** A cached power whose product with a normalized number of exponent e has its exponent in [ALPHA, GAMMA]. */
  function CachedPowerForBinaryExponent(e: int): (r: Option<CachedPower>)
    requires -1500 <= e <= 1500
    ensures r.Some? <==> -1137 <= e <= 964
    ensures r.Some? ==>
      && Accurate(r.value) && TWO_TO_THE_63 <= r.value.f && MIN_DEC_EXP <= r.value.k <= 324
      && ALPHA <= r.value.e + e + 64 <= if e <= 960 then GAMMA - 2 else GAMMA
  {
    hide Entry, Accurate, IndexForBinaryExponent;
    AssertionsHoldExactly(e);
    if MeetsAssertions(e) then Some(Entry(IndexForBinaryExponent(e))) else None
  }
}
