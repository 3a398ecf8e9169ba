/** `Http`: the effective client address of a request and the IP
    allow-list test (`Http::getUserIp`, `Http::isIpInRange`). */
module Http {
  import opened Wrappers
  import opened Text
  import opened Externals

  /** The request's server variables (`$_SERVER`); the modelled keys hold
      strings. */
  type Server = map<string, string>

  /** `(string)($_SERVER[$key] ?? '')`. */
  function ServerValue(server: Server, key: string): string {
    if key in server then server[key] else ""
  }

  /** `array_map('trim', explode(',', $s))`: the pieces of a comma-separated
      list, each trimmed; no piece contains a comma. */
  function TrimmedPieces(s: string): (r: seq<string>)
    ensures |r| == |SplitOn(s, ',')| >= 1
    ensures forall i :: 0 <= i < |r| ==> ',' !in r[i]
  {
    var parts := SplitOn(s, ',');
    seq(|parts|, i requires 0 <= i < |parts| => Trim(parts[i], PhpTrimChars))
  }

  // ---------------------------------------------------------------------
  // Effective client address
  // ---------------------------------------------------------------------

  /** The position of the first candidate that validates as an IP address,
      or `|candidates|` when none does. */
  function FirstValidIndex(x: Externals, candidates: seq<string>): (k: nat)
    ensures k <= |candidates|
    ensures k < |candidates| ==> x.validIp(candidates[k])
    ensures forall j :: 0 <= j < k ==> !x.validIp(candidates[j])
  {
    if candidates == [] then 0
    else if x.validIp(candidates[0]) then 0
    else 1 + FirstValidIndex(x, candidates[1..])
  }

  /** The `X-Forwarded-For` candidates: none when the header is empty. */
  function ForwardedCandidates(server: Server): seq<string> {
    var forward := ServerValue(server, "HTTP_X_FORWARDED_FOR");
    if forward != "" then TrimmedPieces(forward) else []
  }

  /** `Http::getUserIp`: a valid `CF-Connecting-IP`; else the first valid
      trimmed `X-Forwarded-For` element; else a valid `Client-IP`; else a
      valid `REMOTE_ADDR`; else the empty string. A string that validates
      as an IP is never `""` or `"0"`, so `filter_var`'s result is truthy
      exactly when the address is valid. */
  function UserIpSpec(x: Externals, server: Server): string {
    var cf := "HTTP_CF_CONNECTING_IP";
    if cf in server && x.validIp(server[cf]) then server[cf]
    else
      var candidates := ForwardedCandidates(server);
      var k := FirstValidIndex(x, candidates);
      var client := ServerValue(server, "HTTP_CLIENT_IP");
      var remote := ServerValue(server, "REMOTE_ADDR");
      if k < |candidates| then candidates[k]
      else if x.validIp(client) then client
      else if x.validIp(remote) then remote
      else ""
  }

  /** `Http::getUserIp`, with its early-returning loop over the forwarded
      addresses. */
  method GetUserIp(x: Externals, server: Server) returns (ip: string)
    ensures ip == UserIpSpec(x, server)
  {
    var cf := "HTTP_CF_CONNECTING_IP";
    if cf in server && x.validIp(server[cf]) {
      return server[cf];
    }
    var client := ServerValue(server, "HTTP_CLIENT_IP");
    var forward := ServerValue(server, "HTTP_X_FORWARDED_FOR");
    var remote := ServerValue(server, "REMOTE_ADDR");
    if forward != "" {
      var parts := TrimmedPieces(forward);
      var i := 0;
      while i < |parts|
        invariant 0 <= i <= |parts|
        invariant forall j :: 0 <= j < i ==> !x.validIp(parts[j])
      {
        if x.validIp(parts[i]) {
          return parts[i];
        }
        i := i + 1;
      }
    }
    if x.validIp(client) {
      return client;
    }
    if x.validIp(remote) {
      return remote;
    }
    return "";
  }

  /** The chosen address is empty or valid, is taken from one of the
      consulted headers, and is empty only when none of them holds a valid
      address. */
  lemma UserIpIsValidHeaderValue(x: Externals, server: Server)
    requires Lawful(x)
    ensures var ip := UserIpSpec(x, server);
      && (ip == "" || x.validIp(ip))
      && (ip != "" ==>
            || ip == ServerValue(server, "HTTP_CF_CONNECTING_IP")
            || ip in ForwardedCandidates(server)
            || ip == ServerValue(server, "HTTP_CLIENT_IP")
            || ip == ServerValue(server, "REMOTE_ADDR"))
      && (ip == "" ==>
            && !x.validIp(ServerValue(server, "HTTP_CF_CONNECTING_IP"))
            && (forall c :: c in ForwardedCandidates(server) ==> !x.validIp(c))
            && !x.validIp(ServerValue(server, "HTTP_CLIENT_IP"))
            && !x.validIp(ServerValue(server, "REMOTE_ADDR")))
  {
    var ip := UserIpSpec(x, server);
    var candidates := ForwardedCandidates(server);
    var k := FirstValidIndex(x, candidates);
    if ip == "" {
      forall c | c in candidates
        ensures !x.validIp(c)
      {
        var j :| 0 <= j < |candidates| && candidates[j] == c;
        assert k == |candidates|;
      }
    }
  }

  // ---------------------------------------------------------------------
  // Bytes and binary strings
  // ---------------------------------------------------------------------

  /** The low `w` binary digits of `n`, most significant first. */
  function BitsOf(n: nat, w: nat): (r: seq<bool>)
    ensures |r| == w
  {
    if w == 0 then [] else BitsOf(n / 2, w - 1) + [n % 2 == 1]
  }

  /** PHP `chr`: the byte whose value is `n` modulo 256. */
  function Chr(n: int): Byte {
    BitsOf(n % 256, 8)
  }

  /** Exactly the first `k` bits are set. */
  predicate TopBits(b: seq<bool>, k: int) {
    forall j :: 0 <= j < |b| ==> (b[j] <==> j < k)
  }

  /** The number `(2 ** k - 1) << (w - k)` has exactly its top `k` of `w`
      binary digits set. */
  lemma {:induction false} TopBitsOfShiftedOnes(k: nat, w: nat)
    requires k <= w
    ensures TopBits(BitsOf((Pow2(k) - 1) * Pow2(w - k), w), k)
  {
    var n := (Pow2(k) - 1) * Pow2(w - k);
    if w == 0 {
    } else if k < w {
      var half := (Pow2(k) - 1) * Pow2(w - 1 - k);
      assert n == 2 * half;
      TopBitsOfShiftedOnes(k, w - 1);
      assert BitsOf(n, w) == BitsOf(half, w - 1) + [false];
    } else {
      var half := Pow2(k - 1) - 1;
      assert n == 2 * half + 1;
      TopBitsOfShiftedOnes(k - 1, w - 1);
      assert half == (Pow2(k - 1) - 1) * Pow2(w - 1 - (k - 1));
      assert BitsOf(n, w) == BitsOf(half, w - 1) + [true];
    }
  }

  /** `Pow2` is a power: the exponents add. */
  lemma {:induction false} Pow2Add(a: nat, b: nat)
    ensures Pow2(a + b) == Pow2(a) * Pow2(b)
  {
    if a > 0 {
      Pow2Add(a - 1, b);
    }
  }

  /** The byte `chr(((2 ** k) - 1) << (8 - k))` the mask loop appends has
      exactly its top `k` bits set; `chr(255)` and `chr(0)` are the cases
      `k = 8` and `k = 0`. */
  lemma ChrOfShiftedOnes(k: nat)
    requires k <= 8
    ensures TopBits(Chr((Pow2(k) - 1) * Pow2(8 - k)), k)
  {
    var n := (Pow2(k) - 1) * Pow2(8 - k);
    ShiftedOnesFitByte(k);
    ChrOfByte(n);
    TopBitsOfShiftedOnes(k, 8);
  }

  /** `chr` of a byte value is that value's eight binary digits. */
  lemma ChrOfByte(n: int)
    requires 0 <= n < 256
    ensures Chr(n) == BitsOf(n, 8)
  {
    assert n % 256 == n;
  }

  /** `((2 ** k) - 1) << (8 - k)` is a byte value. */
  lemma ShiftedOnesFitByte(k: nat)
    requires k <= 8
    ensures 0 <= (Pow2(k) - 1) * Pow2(8 - k) < 256
  {
    var p := Pow2(8 - k);
    Pow2Add(k, 8 - k);
    assert Pow2(k) * p == 256 by {
      assert k + (8 - k) == 8;
    }
    assert (Pow2(k) - 1) * p == Pow2(k) * p - p;
  }

  /** `str_repeat($c, $n)`. */
  function StrRepeat(c: Byte, n: nat): (r: seq<Byte>)
    ensures |r| == n && forall i :: 0 <= i < n ==> r[i] == c
  {
    seq(n, _ => c)
  }

  /** `str_pad($s, $size, $c)`: right-padded to `size`, never shortened. */
  function StrPad(s: seq<Byte>, size: nat, c: Byte): (r: seq<Byte>)
    ensures |r| == if |s| >= size then |s| else size
    ensures r[..|s|] == s
    ensures forall i :: |s| <= i < |r| ==> r[i] == c
  {
    if |s| >= size then s else s + StrRepeat(c, size - |s|)
  }

  function AndByte(a: Byte, b: Byte): Byte {
    seq(8, j requires 0 <= j < 8 => a[j] && b[j])
  }

  /** PHP's `&` on two strings: byte-wise AND, as long as the shorter. */
  function StrAnd(a: seq<Byte>, b: seq<Byte>): (r: seq<Byte>)
    ensures |r| == if |a| <= |b| then |a| else |b|
  {
    var n := if |a| <= |b| then |a| else |b|;
    seq(n, i requires 0 <= i < n => AndByte(a[i], b[i]))
  }

  // ---------------------------------------------------------------------
  // The prefix mask
  // ---------------------------------------------------------------------

  /** The mask is as long as the address width, or longer when the prefix
      needs more bytes. */
  function MaskLength(m: nat, size: nat): nat {
    var needed := (m + 7) / 8;
    if size >= needed then size else needed
  }

  /** The mask of a prefix length `m`: bit `j` of byte `i` is set exactly
      when `8 * i + j < m`, that is, the first `m` bits and no others. */
  function Mask(m: nat, size: nat): seq<Byte> {
    seq(MaskLength(m, size), i requires 0 <= i < MaskLength(m, size) =>
      seq(8, j requires 0 <= j < 8 => 8 * i + j < m))
  }

  lemma MaskExtensional(s: seq<Byte>, m: nat, size: nat)
    requires |s| == MaskLength(m, size)
    requires forall i, j :: 0 <= i < |s| && 0 <= j < 8 ==> (s[i][j] <==> 8 * i + j < m)
    ensures s == Mask(m, size)
  {
    var mask := Mask(m, size);
    forall i | 0 <= i < |s|
      ensures s[i] == mask[i]
    {
      assert forall j :: 0 <= j < 8 ==> s[i][j] == mask[i][j];
    }
  }

  /** Every bit of `mask` is set exactly when it lies within the first `m`. */
  predicate MaskBitsBelow(mask: seq<Byte>, m: int) {
    forall p, j :: 0 <= p < |mask| && 0 <= j < 8 ==> (mask[p][j] <==> 8 * p + j < m)
  }

  /** The `floor(m / 8)` bytes `chr(255)` cover exactly the bits below `m`
      they span. */
  lemma SolidMask(m: nat)
    ensures MaskBitsBelow(StrRepeat(Chr(255), m / 8), m)
  {
    ChrOfShiftedOnes(8);
    assert (Pow2(8) - 1) * Pow2(8 - 8) == 255;
  }

  /** Appending the byte with the next `bits` top bits set keeps the mask
      bits exactly those below `m`. */
  lemma MaskStep(mask: seq<Byte>, m: int, bits: nat)
    requires bits <= 8 && MaskBitsBelow(mask, m)
    requires bits == if m - 8 * |mask| < 8 then m - 8 * |mask| else 8
    ensures MaskBitsBelow(mask + [Chr((Pow2(bits) - 1) * Pow2(8 - bits))], m)
  {
    ChrOfShiftedOnes(bits);
  }

  /** Padding a mask of the first `m` bits with `chr(0)` gives `Mask`. */
  lemma PaddedMask(mask: seq<Byte>, m: nat, size: nat)
    requires |mask| == (m + 7) / 8 && MaskBitsBelow(mask, m)
    ensures StrPad(mask, size, Chr(0)) == Mask(m, size)
  {
    ChrOfShiftedOnes(0);
    var padded := StrPad(mask, size, Chr(0));
    forall p, j | 0 <= p < |padded| && 0 <= j < 8
      ensures padded[p][j] <==> 8 * p + j < m
    {
      if p < |mask| {
        assert padded[p] == padded[..|mask|][p];
      }
    }
    MaskExtensional(padded, m, size);
  }

  /** The mask construction of `Http::isIpInRange`: `floor(m / 8)` bytes
      `chr(255)`, then the loop that appends `chr(((2 ** bits) - 1) << (8 -
      bits))` for the remaining bits, then zero padding to `size`. A negative
      prefix length makes `str_repeat` throw a `ValueError`. */
  method BuildMask(maskBits: int, size: nat) returns (r: Result<seq<Byte>, Exception>)
    ensures maskBits < 0 ==> r == Err(ValueError)
    ensures maskBits >= 0 ==> r == Ok(Mask(maskBits, size))
  {
    var solid := maskBits / 8;
    var solidBits := solid * 8;
    if solid < 0 {
      return Err(ValueError);
    }
    var mask := StrRepeat(Chr(255), solid);
    SolidMask(maskBits);
    var i := solidBits;
    while i < maskBits
      invariant 0 <= i <= maskBits + 7
      invariant |mask| * 8 == i
      invariant MaskBitsBelow(mask, maskBits)
      decreases maskBits - i
    {
      var bits := if maskBits - i < 8 then maskBits - i else 8;
      MaskStep(mask, maskBits, bits);
      mask := mask + [Chr((Pow2(bits) - 1) * Pow2(8 - bits))];
      i := i + 8;
    }
    assert |mask| == (maskBits + 7) / 8;
    var padded := StrPad(mask, size, Chr(0));
    PaddedMask(mask, maskBits, size);
    return Ok(padded);
  }

  // ---------------------------------------------------------------------
  // The range test
  // ---------------------------------------------------------------------

  /** The network part of `net/bits`: what precedes the first `/`. */
  function NetPart(range: string): string {
    SplitOn(range, '/')[0]
  }

  /** `(int)` of what follows the first `/`. With no `/` the destructured
      element is missing, reads as null, and casts to 0. */
  function PrefixLength(range: string): int {
    var parts := SplitOn(range, '/');
    if |parts| > 1 then PhpIntval(parts[1]) else 0
  }

  /** The address width in bytes the mask is padded to: 16 when the address
      contains `:`, otherwise 4. */
  function Width(ip: string): nat {
    if ':' in ip then 16 else 4
  }

  /** `Http::isIpInRange` for a range without a comma: an unparseable
      address or network throws `InvalidArgumentException`, a negative
      prefix length throws from `str_repeat`, and otherwise the masked
      binary strings are compared. */
  function SingleRangeMatch(x: Externals, ip: string, range: string): Result<bool, Exception> {
    var ipBin := x.inetPton(ip);
    var netBin := x.inetPton(NetPart(range));
    var m := PrefixLength(range);
    if ipBin.None? || netBin.None? then Err(InvalidArgument)
    else if m < 0 then Err(ValueError)
    else Ok(StrAnd(ipBin.value, Mask(m, Width(ip))) == StrAnd(netBin.value, Mask(m, Width(ip))))
  }

  /** `array_any` over the sub-ranges: the first match answers true, the
      first exception escapes, and false needs every sub-range to say false. */
  function AnyRange(x: Externals, ip: string, ranges: seq<string>): Result<bool, Exception> {
    if ranges == [] then Ok(false)
    else
      var first := SingleRangeMatch(x, ip, ranges[0]);
      if first.Err? || first.value then first else AnyRange(x, ip, ranges[1..])
  }

  /** `Http::isIpInRange`: a range containing a comma is a list of ranges,
      each trimmed and checked on its own. */
  function RangeMatch(x: Externals, ip: string, range: string): Result<bool, Exception> {
    if ',' in range then AnyRange(x, ip, TrimmedPieces(range)) else SingleRangeMatch(x, ip, range)
  }

  /** `Http::isIpInRange`, recursing on each sub-range of a list and
      building the mask with its loop. */
  method IsIpInRange(x: Externals, ip: string, range: string) returns (r: Result<bool, Exception>)
    ensures r == RangeMatch(x, ip, range)
    decreases if ',' in range then 1 else 0
  {
    if ',' in range {
      var ranges := TrimmedPieces(range);
      var i := 0;
      while i < |ranges|
        invariant 0 <= i <= |ranges|
        invariant AnyRange(x, ip, ranges) == AnyRange(x, ip, ranges[i..])
      {
        assert ranges[i..][1..] == ranges[i + 1..];
        var one := IsIpInRange(x, ip, ranges[i]);
        if one.Err? || one.value {
          return one;
        }
        i := i + 1;
      }
      return Ok(false);
    }
    var net := NetPart(range);
    var maskBits := PrefixLength(range);
    var size := Width(ip);
    var ipBin := x.inetPton(ip);
    var netBin := x.inetPton(net);
    if ipBin.None? || netBin.None? {
      return Err(InvalidArgument);
    }
    var mask := BuildMask(maskBits, size);
    if mask.Err? {
      return Err(mask.error);
    }
    return Ok(StrAnd(ipBin.value, mask.value) == StrAnd(netBin.value, mask.value));
  }

  /** A sub-range decides the list when it matches or throws. */
  predicate Decisive(r: Result<bool, Exception>) {
    r.Err? || r.value
  }

  /** The sub-ranges before position `i` all answer false. */
  predicate AllFalseBefore(x: Externals, ip: string, ranges: seq<string>, i: int)
    requires 0 <= i <= |ranges|
  {
    forall j :: 0 <= j < i ==> SingleRangeMatch(x, ip, ranges[j]) == Ok(false)
  }

  /** A list of ranges answers false exactly when every sub-range answers
      false; otherwise it gives the answer (true, or the exception) of the
      first sub-range that matches or throws. */
  lemma {:induction false} AnyRangeIsFirstDecisive(x: Externals, ip: string, ranges: seq<string>)
    ensures AnyRange(x, ip, ranges) == Ok(false) <==> AllFalseBefore(x, ip, ranges, |ranges|)
    ensures AnyRange(x, ip, ranges) != Ok(false) ==>
      exists i :: 0 <= i < |ranges| && AllFalseBefore(x, ip, ranges, i)
        && SingleRangeMatch(x, ip, ranges[i]) == AnyRange(x, ip, ranges)
  {
    if ranges != [] {
      var rest := ranges[1..];
      AnyRangeIsFirstDecisive(x, ip, rest);
      var first := SingleRangeMatch(x, ip, ranges[0]);
      if !Decisive(first) {
        AllFalseShift(x, ip, ranges, |rest|);
        if AnyRange(x, ip, rest) != Ok(false) {
          var i :| 0 <= i < |rest| && AllFalseBefore(x, ip, rest, i)
                   && SingleRangeMatch(x, ip, rest[i]) == AnyRange(x, ip, rest);
          AllFalseShift(x, ip, ranges, i);
          assert ranges[i + 1] == rest[i];
        }
      } else {
        assert AllFalseBefore(x, ip, ranges, 0);
      }
    }
  }

  /** After a first sub-range that answers false, the first `i + 1`
      sub-ranges answer false exactly when the first `i` of the rest do. */
  lemma AllFalseShift(x: Externals, ip: string, ranges: seq<string>, i: nat)
    requires ranges != [] && i < |ranges| && SingleRangeMatch(x, ip, ranges[0]) == Ok(false)
    ensures AllFalseBefore(x, ip, ranges, i + 1) <==> AllFalseBefore(x, ip, ranges[1..], i)
  {
    var rest := ranges[1..];
    assert forall j :: 0 <= j < i ==> rest[j] == ranges[j + 1];
    if AllFalseBefore(x, ip, rest, i) {
      forall j | 0 <= j < i + 1
        ensures SingleRangeMatch(x, ip, ranges[j]) == Ok(false)
      {
        if j > 0 {
          assert ranges[j] == rest[j - 1];
        }
      }
    }
  }

  /** With a comma, the answer is true exactly when some trimmed sub-range
      matches and none before it throws. */
  lemma ListMatchesIffSomeRangeMatches(x: Externals, ip: string, range: string)
    requires ',' in range
    ensures var ranges := TrimmedPieces(range);
      RangeMatch(x, ip, range) == Ok(true) <==>
        exists i :: 0 <= i < |ranges| && AllFalseBefore(x, ip, ranges, i)
          && SingleRangeMatch(x, ip, ranges[i]) == Ok(true)
  {
    AnyRangeIsFirstDecisive(x, ip, TrimmedPieces(range));
  }

  /** The first `n` bits of two binary strings agree. */
  predicate PrefixAgree(a: seq<Byte>, b: seq<Byte>, n: nat)
    requires n <= 8 * |a| && n <= 8 * |b|
  {
    forall k :: 0 <= k < n ==> a[k / 8][k % 8] == b[k / 8][k % 8]
  }

  /** Comparing two equally long addresses under the mask of prefix length
      `m` decides whether their first `m` bits agree (all of them when the
      prefix is longer than the address), as in section 3.1 of RFC 4632 and
      section 2.3 of RFC 4291. */
  lemma MaskedEqualIsPrefixAgreement(a: seq<Byte>, b: seq<Byte>, m: nat, size: nat)
    requires |a| == |b| <= size
    ensures var mask := Mask(m, size);
      (StrAnd(a, mask) == StrAnd(b, mask)) <==> PrefixAgree(a, b, if m <= 8 * |a| then m else 8 * |a|)
  {
    var mask := Mask(m, size);
    var n := if m <= 8 * |a| then m else 8 * |a|;
    var ma, mb := StrAnd(a, mask), StrAnd(b, mask);
    assert |ma| == |a| && |mb| == |a|;
    if ma == mb {
      forall k | 0 <= k < n
        ensures a[k / 8][k % 8] == b[k / 8][k % 8]
      {
        var i, j := k / 8, k % 8;
        assert ma[i][j] == mb[i][j];
      }
    }
    if PrefixAgree(a, b, n) {
      forall i | 0 <= i < |a|
        ensures ma[i] == mb[i]
      {
        forall j | 0 <= j < 8
          ensures ma[i][j] == mb[i][j]
        {
          var k := 8 * i + j;
          assert k / 8 == i && k % 8 == j;
        }
      }
    }
  }

  /** Agreement on every bit is equality. */
  lemma FullAgreementIsEquality(a: seq<Byte>, b: seq<Byte>)
    requires |a| == |b|
    ensures PrefixAgree(a, b, 8 * |a|) <==> a == b
  {
    if PrefixAgree(a, b, 8 * |a|) {
      forall i | 0 <= i < |a|
        ensures a[i] == b[i]
      {
        forall j | 0 <= j < 8
          ensures a[i][j] == b[i][j]
        {
          var k := 8 * i + j;
          assert k / 8 == i && k % 8 == j;
        }
      }
    }
  }

  /** For an address and a network that parse to binary strings of the same
      length, no longer than the width chosen from the address, a single
      range is a prefix test: a negative prefix length throws, and otherwise
      the range matches exactly when the first `m` bits agree. */
  lemma SingleRangeIsPrefixTest(x: Externals, ip: string, range: string)
    requires x.inetPton(ip).Some? && x.inetPton(NetPart(range)).Some?
    requires |x.inetPton(ip).value| == |x.inetPton(NetPart(range)).value| <= Width(ip)
    ensures var a, b, m := x.inetPton(ip).value, x.inetPton(NetPart(range)).value, PrefixLength(range);
      SingleRangeMatch(x, ip, range)
      == if m < 0 then Err(ValueError) else Ok(PrefixAgree(a, b, if m <= 8 * |a| then m else 8 * |a|))
  {
    var m := PrefixLength(range);
    if m >= 0 {
      MaskedEqualIsPrefixAgreement(x.inetPton(ip).value, x.inetPton(NetPart(range)).value, m, Width(ip));
    }
  }

  /** A prefix length of 0 admits every address of the network's length. */
  lemma ZeroPrefixAdmitsAll(x: Externals, ip: string, range: string)
    requires x.inetPton(ip).Some? && x.inetPton(NetPart(range)).Some?
    requires |x.inetPton(ip).value| == |x.inetPton(NetPart(range)).value| <= Width(ip)
    requires PrefixLength(range) == 0
    ensures SingleRangeMatch(x, ip, range) == Ok(true)
  {
    SingleRangeIsPrefixTest(x, ip, range);
  }

  /** A prefix covering the whole address (`/32` for IPv4, `/128` for IPv6)
      admits exactly the network address itself. */
  lemma FullPrefixAdmitsOnlyTheAddress(x: Externals, ip: string, range: string)
    requires x.inetPton(ip).Some? && x.inetPton(NetPart(range)).Some?
    requires |x.inetPton(ip).value| == |x.inetPton(NetPart(range)).value| <= Width(ip)
    requires PrefixLength(range) >= 8 * |x.inetPton(ip).value|
    ensures SingleRangeMatch(x, ip, range) == Ok(x.inetPton(ip).value == x.inetPton(NetPart(range)).value)
  {
    SingleRangeIsPrefixTest(x, ip, range);
    FullAgreementIsEquality(x.inetPton(ip).value, x.inetPton(NetPart(range)).value);
  }

  /** A range written without `/` has prefix length 0, so it admits every
      address of its own length, not only the address it names. */
  lemma BareAddressAdmitsAll(x: Externals, ip: string, range: string)
    requires '/' !in range
    requires x.inetPton(ip).Some? && x.inetPton(range).Some?
    requires |x.inetPton(ip).value| == |x.inetPton(range).value| <= Width(ip)
    ensures NetPart(range) == range && PrefixLength(range) == 0
    ensures SingleRangeMatch(x, ip, range) == Ok(true)
  {
    SplitNoSeparator(range, '/');
    ZeroPrefixAdmitsAll(x, ip, range);
  }

  /** An address or network that does not parse raises an exception rather
      than answering false, whatever the prefix length. */
  lemma UnparseableRaises(x: Externals, ip: string, range: string)
    requires ',' !in range
    requires x.inetPton(ip).None? || x.inetPton(NetPart(range)).None?
    ensures RangeMatch(x, ip, range) == Err(InvalidArgument)
  {
  }
}
