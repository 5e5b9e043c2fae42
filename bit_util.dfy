/**
 * BitUtil.getBits / BitUtil.setBits as used on OrderBase's 32-bit `flags`.
 * The helper is not part of this model; it is stated here by its documented
 * definition: getBits = (flags >> shift) & mask and
 * setBits = (flags & ~(mask << shift)) | ((bits & mask) << shift).
 * The Swift code applies them to `Int(flags)` (sign-extended to 64 bits) and
 * converts the result back with `Int32(...)`; every mask << shift used lies in
 * bits 0..14, so bits 32..63 of the result copy bit 31 and the conversion is
 * exact -- the 32-bit computation below is the same value.
 */
module BitUtil {

  function GetBits(flags: bv32, mask: bv32, shift: bv32): (r: bv32)
    requires shift < 32
    ensures r & mask == r
  {
    (flags >> shift) & mask
  }

  function SetBits(flags: bv32, mask: bv32, shift: bv32, bits: bv32): (r: bv32)
    requires shift < 32
    ensures r & !(mask << shift) == flags & !(mask << shift)
  {
    (flags & !(mask << shift)) | ((bits & mask) << shift)
  }
}
