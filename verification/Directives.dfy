/** The IGVM directives the builder emits and the measurement loop reads. */
module Directives {
  import opened ByteLayout

  datatype PageKind = Normal | Secrets | CpuidData | CpuidXf

  datatype Directive =
    | PageData(gpa: nat, mask: bv32, unmeasured: bool, kind: PageKind, data: Bytes)
    | SnpVpContext(mask: bv32, vmsa: Bytes)   // the 4096-byte page, KVM overrides applied
    | ParameterArea(index: nat, size: nat)
    | ParameterInsert(index: nat, gpa: nat, mask: bv32)
    | Other(tag: nat)                          // parameter descriptions and native contexts

  datatype Platform = Platform(isSnp: bool, mask: bv32)
  datatype IgvmFile = IgvmFile(platforms: seq<Platform>, directives: seq<Directive>)

  /** Whether a directive's mask selects the platform. */
  predicate Compatible(mask: bv32, compat: bv32) {
    mask & compat != 0
  }

  predicate IsPage(d: Directive, compat: bv32) {
    d.PageData? && Compatible(d.mask, compat)
  }

  predicate IsInsert(d: Directive, compat: bv32) {
    d.ParameterInsert? && Compatible(d.mask, compat)
  }
}
