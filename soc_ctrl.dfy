/** The shared words the host and the Snitch clusters talk through: the
    SoC-control registers (boot address, trap-handler address, one return
    register per cluster) and the CLINT machine-software-interrupt words, one
    per hart. They live at SOC_CTRL_BASE and CLINT_CTRL_BASE; the model names
    each word instead of computing its address. */
module SocCtrl {

  datatype SocReg =
    | BootAddr                  // CHIMERA_SNITCH_BOOT_ADDR, shared by all clusters
    | IntrHandlerAddr           // CHIMERA_SNITCH_INTR_HANDLER_ADDR
    | ClusterReturn(slot: nat)  // CHIMERA_SNITCH_CLUSTER_<slot>_RETURN
    | Msip(hart: nat)           // CLINT word `hart`: writing 1 raises its software interrupt

  /** Clusters 0 to 4 report through return registers 1 to 5. */
  const ReturnSlots: nat := 5
}
