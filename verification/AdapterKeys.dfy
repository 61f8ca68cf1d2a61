/** The two configuration keys that together select a display adapter. */
module AdapterKeys {

  const NAME := "adapter_name"
  const PNP := "adapter_pnp_id"
}
