/** The product record shared by the storefront pages and the products API
    (`Product` in `src/types/index.ts`). */
module Catalog {
  import opened Wrappers

  /** A catalogue product; `brand` and `inStock` are optional fields. */
  datatype Product = Product(
    id: string,
    name: string,
    description: string,
    price: real,
    category: string,
    imageUrl: string,
    brand: Option<string>,
    inStock: Option<bool>)

  /** `p.inStock !== false`: a missing flag counts as in stock. */
  predicate Available(p: Product) {
    p.inStock != Some(false)
  }
}
