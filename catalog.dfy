/**
 * The catalog entities read and written by the product-processing pipeline:
 * a `Product` as loaded from the input document and the `ProductSummary`
 * projection that is written to the output document.
 */
module Catalog {

  /** One catalog entry. `price` is a floating-point number in the program;
      no logic reads it, so it is kept here as an exact `real`. */
  datatype Product = Product(
    id: string,
    name: string,
    description: string,
    price: real,
    category: string,
    pictureUrl: string)

  /** The `{id, name}` object the filter builds for every retained product. */
  datatype ProductSummary = ProductSummary(id: string, name: string)

  /** Projects a product to its summary, keeping only the identifying fields. */
  function Summary(p: Product): ProductSummary
  {
    ProductSummary(p.id, p.name)
  }
}
